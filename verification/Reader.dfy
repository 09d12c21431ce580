/** The reader thread and `__exit__` over the serial log, step by step: what
    holds in every interleaving of them and of whoever takes a snapshot. */
module Reader {
  import opened Common

  datatype Owner = Nobody | ByReader | ByObserver | ByExit

  /** Where the reader is; from `Holding` to `Leaving` it has the lock. */
  datatype ReaderPc =
    | Looping
    | Receiving
    | Waiting(chunk: Bytes)
    | Holding(chunk: Bytes)
    | Writing(chunk: Bytes)
    | Flushing(chunk: Bytes)
    | Extending(chunk: Bytes)
    | Releasing
    | Leaving
    | Done

  datatype ObserverPc = Away | Locked | Copied

  /** Where `__exit__` is; in `Closing` and `Closed` it has the lock. */
  datatype ExitPc = Inside | StopSet | SocketClosed | Joined | Closing | Closed | Gone

  /** `disk` is the serial log as flushed, `pending` what was written since.
      `received` and `dropped` are the socket's bytes and those the reader let go
      of; `fault` is a write to a closed file. */
  datatype State = State(
    lock: Owner, stop: bool, logOpen: bool, pending: Bytes, disk: Bytes, buf: Bytes,
    reader: ReaderPc, observer: ObserverPc, exit: ExitPc, snapshot: Bytes,
    received: Bytes, dropped: Bytes, fault: bool)

  const INITIAL: State := State(Nobody, false, true, [], [], [], Looping, Away, Inside, [], [], [], false)

  datatype Step =
    | CheckStop
    | Recv(chunk: Bytes)
    | RecvTimeout
    | RecvFailed               // an OSError, or the end of the stream
    | ReaderLocks | Recheck | Write | Flush | Extend | ReaderUnlocks
    | ObserverLocks | Copy | ObserverUnlocks
    | SetStop | CloseSocket
    | Join                     // the reader is done, or five seconds are over
    | ExitLocks | CloseLog | ExitUnlocks

  /** The state after one step, `None` where the step cannot be taken. `recheck`
      is whether the reader looks at the stop flag again under the lock. */
  function Apply(recheck: bool, s: State, step: Step): Option<State> {
    match step
    case CheckStop =>
      if s.reader.Looping? then Some(s.(reader := if s.stop then Done else Receiving)) else None
    case Recv(chunk) =>
      if s.reader.Receiving? && chunk != []
      then Some(s.(reader := Waiting(chunk), received := s.received + chunk)) else None
    case RecvTimeout =>
      if s.reader.Receiving? then Some(s.(reader := Looping)) else None
    case RecvFailed =>
      if s.reader.Receiving? then Some(s.(reader := Done)) else None
    case ReaderLocks =>
      if s.reader.Waiting? && s.lock.Nobody?
      then Some(s.(reader := Holding(s.reader.chunk), lock := ByReader)) else None
    case Recheck =>
      if !s.reader.Holding? then None
      else if recheck && s.stop then Some(s.(reader := Leaving, dropped := s.reader.chunk))
      else Some(s.(reader := Writing(s.reader.chunk)))
    case Write =>
      if s.reader.Writing?
      then Some(s.(reader := Flushing(s.reader.chunk), pending := s.pending + s.reader.chunk,
                   fault := s.fault || !s.logOpen)) else None
    case Flush =>
      if s.reader.Flushing?
      then Some(s.(reader := Extending(s.reader.chunk), disk := s.disk + s.pending, pending := [],
                   fault := s.fault || !s.logOpen)) else None
    case Extend =>
      if s.reader.Extending?
      then Some(s.(reader := Releasing, buf := s.buf + s.reader.chunk)) else None
    case ReaderUnlocks =>
      if s.reader.Releasing? then Some(s.(reader := Looping, lock := Nobody))
      else if s.reader.Leaving? then Some(s.(reader := Done, lock := Nobody))
      else None
    case ObserverLocks =>
      if s.observer.Away? && s.lock.Nobody? then Some(s.(observer := Locked, lock := ByObserver)) else None
    case Copy =>
      if s.observer.Locked? then Some(s.(observer := Copied, snapshot := s.buf)) else None
    case ObserverUnlocks =>
      if s.observer.Copied? then Some(s.(observer := Away, lock := Nobody)) else None
    case SetStop =>
      if s.exit.Inside? then Some(s.(exit := StopSet, stop := true)) else None
    case CloseSocket =>
      if s.exit.StopSet? then Some(s.(exit := SocketClosed)) else None
    case Join =>
      if s.exit.SocketClosed? then Some(s.(exit := Joined)) else None
    case ExitLocks =>
      if s.exit.Joined? && s.lock.Nobody? then Some(s.(exit := Closing, lock := ByExit)) else None
    case CloseLog =>
      if s.exit.Closing?
      then Some(s.(exit := Closed, logOpen := false, disk := s.disk + s.pending, pending := [])) else None
    case ExitUnlocks =>
      if s.exit.Closed? then Some(s.(exit := Gone, lock := Nobody)) else None
  }

  function Run(recheck: bool, s: State, steps: seq<Step>): Option<State> {
    if steps == [] then Some(s)
    else match Run(recheck, s, steps[..|steps| - 1])
      case None => None
      case Some(before) => Apply(recheck, before, steps[|steps| - 1])
  }

  // --- what every step keeps -------------------------------------------------------------------

  /** The chunk the reader has that is not in the buffer yet. */
  function Held(r: ReaderPc): Bytes {
    match r
    case Waiting(c) => c case Holding(c) => c case Writing(c) => c
    case Flushing(c) => c case Extending(c) => c
    case _ => []
  }

  ghost predicate LockOk(s: State) {
    && (s.lock.ByReader? <==> s.reader.Holding? || s.reader.Writing? || s.reader.Flushing?
                              || s.reader.Extending? || s.reader.Releasing? || s.reader.Leaving?)
    && (s.lock.ByObserver? <==> !s.observer.Away?)
    && (s.lock.ByExit? <==> s.exit.Closing? || s.exit.Closed?)
  }

  ghost predicate ShutdownOk(s: State) {
    && (s.stop <==> !s.exit.Inside?)
    && (s.logOpen <==> !s.exit.Closed? && !s.exit.Gone?)
    && (s.reader.Writing? || s.reader.Flushing? || s.reader.Extending? ==> s.logOpen)
    && !s.fault
  }

  /** The log and the buffer part only between the reader's write and its extend. */
  ghost predicate SameBytes(s: State) {
    match s.reader
    case Flushing(c) => s.pending == c && s.disk == s.buf
    case Extending(c) => s.pending == [] && s.disk == s.buf + c
    case _ => s.pending == [] && s.disk == s.buf
  }

  /** What the socket gave is in the buffer, in the reader's hands, or the one
      chunk it let go of because the shutdown had begun. */
  ghost predicate NothingLost(s: State) {
    && s.received == s.buf + Held(s.reader) + s.dropped
    && (s.dropped != [] ==> s.stop && (s.reader.Leaving? || s.reader.Done?))
  }

  ghost predicate Inv(s: State) {
    LockOk(s) && ShutdownOk(s) && SameBytes(s) && NothingLost(s) && s.snapshot <= s.buf
  }

  lemma StepKeepsLock(s: State, step: Step)
    requires Inv(s) && Apply(true, s, step).Some?
    ensures LockOk(Apply(true, s, step).value)
  {
    hide ShutdownOk, SameBytes, NothingLost;
  }

  lemma StepKeepsShutdown(s: State, step: Step)
    requires Inv(s) && Apply(true, s, step).Some?
    ensures ShutdownOk(Apply(true, s, step).value)
  {
    hide SameBytes, NothingLost;
  }

  lemma StepKeepsBytes(s: State, step: Step)
    requires Inv(s) && Apply(true, s, step).Some?
    ensures SameBytes(Apply(true, s, step).value)
    ensures s.buf <= Apply(true, s, step).value.buf
    ensures Apply(true, s, step).value.snapshot <= Apply(true, s, step).value.buf
  {
    hide ShutdownOk, NothingLost;
  }

  lemma StepLosesNothing(s: State, step: Step)
    requires Inv(s) && Apply(true, s, step).Some?
    ensures NothingLost(Apply(true, s, step).value)
  {
    hide LockOk, ShutdownOk, SameBytes;
    var next := Apply(true, s, step).value;
    assert s.buf + Held(s.reader) + [] == s.buf + Held(s.reader);
    if step.Extend? {
      assert next.buf + [] + s.dropped == s.buf + Held(s.reader) + s.dropped;
    }
  }

  lemma StepKeepsInv(s: State, step: Step)
    requires Inv(s) && Apply(true, s, step).Some?
    ensures Inv(Apply(true, s, step).value)
    ensures s.buf <= Apply(true, s, step).value.buf
  {
    hide Apply, LockOk, ShutdownOk, SameBytes, NothingLost;
    StepKeepsLock(s, step);
    StepKeepsShutdown(s, step);
    StepKeepsBytes(s, step);
    StepLosesNothing(s, step);
  }

  /** In every interleaving: nothing writes to a closed log, the log and the
      buffer are the same bytes whenever the lock is free, nothing received is
      lost before the shutdown begins, and a snapshot is a prefix of the buffer. */
  lemma {:induction false} EveryRunIsSafe(steps: seq<Step>)
    requires Run(true, INITIAL, steps).Some?
    ensures var s := Run(true, INITIAL, steps).value;
            && Inv(s) && !s.fault
            && (s.lock.Nobody? ==> s.pending == [] && s.disk == s.buf)
            && (!s.stop ==> s.received == s.buf + Held(s.reader))
            && s.snapshot <= s.buf
  {
    if steps != [] {
      EveryRunIsSafe(steps[..|steps| - 1]);
      StepKeepsInv(Run(true, INITIAL, steps[..|steps| - 1]).value, steps[|steps| - 1]);
    }
    var s := Run(true, INITIAL, steps).value;
    assert s.buf + Held(s.reader) + [] == s.buf + Held(s.reader);
  }

  /** Once the log is closed neither it nor the buffer changes again. */
  ghost predicate Frozen(s: State, later: State) {
    !s.logOpen ==> !later.logOpen && later.disk == s.disk && later.buf == s.buf
  }

  lemma StepFreezes(s: State, step: Step)
    requires Inv(s) && Apply(true, s, step).Some?
    ensures Frozen(s, Apply(true, s, step).value)
  {
  }

  /** The buffer only ever grows by appending, and is final once the log is closed. */
  lemma {:induction false} BufferOnlyGrows(steps: seq<Step>, more: seq<Step>)
    requires Run(true, INITIAL, steps + more).Some?
    ensures Run(true, INITIAL, steps).Some?
    ensures Run(true, INITIAL, steps).value.buf <= Run(true, INITIAL, steps + more).value.buf
    ensures Frozen(Run(true, INITIAL, steps).value, Run(true, INITIAL, steps + more).value)
    decreases |more|
  {
    if more == [] {
      assert steps + more == steps;
    } else {
      var init := more[..|more| - 1];
      assert (steps + more)[..|steps + more| - 1] == steps + init;
      BufferOnlyGrows(steps, init);
      EveryRunIsSafe(steps + init);
      var s := Run(true, INITIAL, steps + init).value;
      StepKeepsInv(s, more[|more| - 1]);
      StepFreezes(s, more[|more| - 1]);
    }
  }

  // --- why the reader looks twice ------------------------------------------------------------------

  // --- what an observer copies ---------------------------------------------------------------------

  /** A fresh copy is the whole buffer: the lock keeps the reader out. */
  ghost predicate CopyOk(s: State) {
    s.observer.Copied? ==> s.snapshot == s.buf
  }

  lemma StepKeepsCopy(s: State, step: Step)
    requires Inv(s) && CopyOk(s) && Apply(true, s, step).Some?
    ensures CopyOk(Apply(true, s, step).value)
    ensures s.snapshot <= Apply(true, s, step).value.snapshot
  {
    hide ShutdownOk, SameBytes, NothingLost;
  }

  lemma {:induction false} CopiesAreOk(steps: seq<Step>)
    requires Run(true, INITIAL, steps).Some?
    ensures Inv(Run(true, INITIAL, steps).value) && CopyOk(Run(true, INITIAL, steps).value)
  {
    hide Inv, CopyOk, Apply;
    EveryRunIsSafe(steps);
    if steps == [] {
      NothingCopied();
    } else {
      var init := steps[..|steps| - 1];
      CopiesAreOk(init);
      StepKeepsCopy(Run(true, INITIAL, init).value, steps[|steps| - 1]);
    }
  }

  lemma NothingCopied()
    ensures CopyOk(INITIAL)
  {
  }

  /** In every interleaving a fresh copy is the buffer and the log, byte for byte. */
  lemma CopyIsTheCapture(steps: seq<Step>)
    requires Run(true, INITIAL, steps).Some? && Run(true, INITIAL, steps).value.observer.Copied?
    ensures var s := Run(true, INITIAL, steps).value;
            s.snapshot == s.buf == s.disk && s.pending == []
  {
    CopiesAreOk(steps);
  }

  /** And a later copy goes on from an earlier one. */
  lemma {:induction false} CopiesExtend(steps: seq<Step>, more: seq<Step>)
    requires Run(true, INITIAL, steps + more).Some?
    ensures Run(true, INITIAL, steps).Some?
    ensures Run(true, INITIAL, steps).value.snapshot <= Run(true, INITIAL, steps + more).value.snapshot
    decreases |more|
  {
    hide Inv, CopyOk, Apply;
    if more == [] {
      assert steps + more == steps;
    } else {
      var init := more[..|more| - 1];
      assert (steps + more)[..|steps + more| - 1] == steps + init;
      CopiesExtend(steps, init);
      CopiesAreOk(steps + init);
      StepKeepsCopy(Run(true, INITIAL, steps + init).value, more[|more| - 1]);
    }
  }

  // --- after the stop ------------------------------------------------------------------------------

  /** The buffer with the chunk that is past the second look. */
  function Committed(s: State): Bytes {
    match s.reader
    case Writing(c) => s.buf + c
    case Flushing(c) => s.buf + c
    case Extending(c) => s.buf + c
    case _ => s.buf
  }

  function Recvs(steps: seq<Step>): nat {
    if steps == [] then 0
    else Recvs(steps[..|steps| - 1]) + if steps[|steps| - 1].Recv? then 1 else 0
  }

  /** The chunks a stopped reader may still take. */
  function MayTake(s: State): nat {
    if s.reader.Receiving? then 1 else 0
  }

  lemma StepAfterStop(s: State, step: Step)
    requires Inv(s) && s.stop && Apply(true, s, step).Some?
    ensures var next := Apply(true, s, step).value;
            && next.stop && Committed(next) == Committed(s)
            && MayTake(next) + (if step.Recv? then 1 else 0) <= MayTake(s)
  {
    hide LockOk, SameBytes, NothingLost;
  }

  /** Once the stop flag is set the reader takes one more chunk at most, if it was
      waiting for one, and nothing gets into the buffer that was not past the
      second look already. */
  lemma {:induction false} StopEndsTheCapture(steps: seq<Step>, more: seq<Step>)
    requires Run(true, INITIAL, steps + more).Some?
    requires Run(true, INITIAL, steps).Some? && Run(true, INITIAL, steps).value.stop
    ensures var s, t := Run(true, INITIAL, steps).value, Run(true, INITIAL, steps + more).value;
            && t.stop && Committed(t) == Committed(s) && t.buf <= Committed(s)
            && Recvs(more) + MayTake(t) <= MayTake(s)
    decreases |more|
  {
    hide Inv, Apply, MayTake;
    if more == [] {
      assert steps + more == steps;
    } else {
      var init := more[..|more| - 1];
      assert (steps + more)[..|steps + more| - 1] == steps + init;
      StopEndsTheCapture(steps, init);
      EveryRunIsSafe(steps + init);
      StepAfterStop(Run(true, INITIAL, steps + init).value, more[|more| - 1]);
    }
  }

  // --- nobody is stuck, and the reader stays --------------------------------------------------------

  ghost predicate CanTake(s: State, step: Step) {
    Apply(true, s, step).Some?
  }

  /** Whoever has the lock can go on; a reader that is not done can, except while it
      waits for the lock, and takes any chunk; `__exit__` can too. */
  ghost predicate NobodyIsStuck(s: State) {
    && (s.lock.ByObserver? ==> CanTake(s, Copy) || CanTake(s, ObserverUnlocks))
    && (s.lock.ByExit? ==> CanTake(s, CloseLog) || CanTake(s, ExitUnlocks))
    && (s.lock.ByReader? ==> CanTake(s, Recheck) || CanTake(s, Write) || CanTake(s, Flush) || CanTake(s, Extend)
                             || CanTake(s, ReaderUnlocks))
    && (s.lock.Nobody? && !s.reader.Done? ==>
          || CanTake(s, CheckStop) || CanTake(s, ReaderLocks)
          || (CanTake(s, RecvTimeout) && CanTake(s, RecvFailed) && forall c: Bytes :: c != [] ==> CanTake(s, Recv(c))))
    && (s.lock.Nobody? ==> CanTake(s, ObserverLocks))
    && (s.lock.Nobody? && !s.exit.Gone? ==>
          CanTake(s, SetStop) || CanTake(s, CloseSocket) || CanTake(s, Join) || CanTake(s, ExitLocks))
  }

  lemma InvGoesOn(s: State)
    requires Inv(s)
    ensures NobodyIsStuck(s)
  {
    hide ShutdownOk, SameBytes, NothingLost;
  }

  /** So no interleaving deadlocks. */
  lemma NoDeadlock(steps: seq<Step>)
    requires Run(true, INITIAL, steps).Some?
    ensures NobodyIsStuck(Run(true, INITIAL, steps).value)
  {
    hide Inv, NobodyIsStuck, Apply;
    EveryRunIsSafe(steps);
    InvGoesOn(Run(true, INITIAL, steps).value);
  }

  ghost predicate Left(s: State) {
    s.reader.Leaving? || s.reader.Done?
  }

  lemma StepLeaves(s: State, step: Step)
    requires Apply(true, s, step).Some? && !Left(s) && Left(Apply(true, s, step).value)
    ensures s.stop || step == RecvFailed
  {
  }

  lemma StopStays(s: State, step: Step)
    requires Apply(true, s, step).Some?
    ensures s.stop ==> Apply(true, s, step).value.stop
  {
  }

  /** The reader leaves for the stop flag or a failed read alone, whatever time-outs
      and observers come in between. */
  lemma {:induction false} ReaderStays(steps: seq<Step>)
    requires Run(true, INITIAL, steps).Some? && Left(Run(true, INITIAL, steps).value)
    ensures Run(true, INITIAL, steps).value.stop || RecvFailed in steps
  {
    hide Left, Apply;
    if steps == [] {
      assert Left(INITIAL);
      StartsInside();
    } else {
      var init, last := steps[..|steps| - 1], steps[|steps| - 1];
      assert steps == init + [last];
      var s := Run(true, INITIAL, init).value;
      StopStays(s, last);
      if Left(s) {
        ReaderStays(init);
      } else {
        StepLeaves(s, last);
      }
    }
  }

  lemma StartsInside()
    ensures !Left(INITIAL)
  {
  }

  // --- why the second look is needed ------------------------------------------------------------------

  /** A reader that outlives the join and does not look again under the lock. */
  const OUTLIVED: seq<Step> :=
    [CheckStop, Recv([65]), SetStop, CloseSocket, Join, ExitLocks, CloseLog, ExitUnlocks,
     ReaderLocks, Recheck, Write]

  lemma TakeStep(steps: seq<Step>, s: State, step: Step) returns (more: seq<Step>, t: State)
    requires Run(false, INITIAL, steps) == Some(s) && Apply(false, s, step).Some?
    ensures more == steps + [step] && t == Apply(false, s, step).value
    ensures Run(false, INITIAL, more) == Some(t)
  {
    more, t := steps + [step], Apply(false, s, step).value;
    assert more[..|steps|] == steps;
  }

  /** Without the second look at the stop flag it writes to the closed log. */
  lemma SecondLookIsNeeded()
    ensures Run(false, INITIAL, OUTLIVED).Some? && Run(false, INITIAL, OUTLIVED).value.fault
  {
    hide Run;
    var steps, s := [], INITIAL;
    NoSteps();
    steps, s := TakeStep(steps, s, CheckStop);
    steps, s := TakeStep(steps, s, Recv([65]));
    steps, s := TakeStep(steps, s, SetStop);
    steps, s := TakeStep(steps, s, CloseSocket);
    steps, s := TakeStep(steps, s, Join);
    steps, s := TakeStep(steps, s, ExitLocks);
    steps, s := TakeStep(steps, s, CloseLog);
    steps, s := TakeStep(steps, s, ExitUnlocks);
    steps, s := TakeStep(steps, s, ReaderLocks);
    steps, s := TakeStep(steps, s, Recheck);
    steps, s := TakeStep(steps, s, Write);
    assert steps == OUTLIVED;
  }

  lemma NoSteps()
    ensures Run(false, INITIAL, []) == Some(INITIAL)
  {
  }
}
