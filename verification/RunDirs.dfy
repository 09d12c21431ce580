/** The numbered log directory of a run, and the boots that ask for it at once. */
module RunDirs {
  import opened Common

  const MAX_RUN_NUMBER: nat := 9999

  predicate IsDigit(c: char) {
    '0' <= c <= '9'
  }

  function Value(s: string): nat
    requires forall i :: 0 <= i < |s| ==> IsDigit(s[i])
  {
    if s == [] then 0
    else
      assert IsDigit(s[|s| - 1]);
      10 * Value(s[..|s| - 1]) + (s[|s| - 1] as int - '0' as int)
  }

  /** The number of a directory named four digits and a dash, then anything. */
  function RunNumber(name: string): Option<nat> {
    if |name| >= 5 && (forall i :: 0 <= i < 4 ==> IsDigit(name[i])) && name[4] == '-'
    then Some(Value(name[..4]))
    else None
  }

  function Digit(n: nat): char {
    "0123456789"[n % 10]
  }

  /** `f"{number:04d}-{date}"`, up to 9999. */
  function DirName(number: nat, date: string): string {
    [Digit(number / 1000), Digit(number / 100), Digit(number / 10), Digit(number)] + "-" + date
  }

  lemma DigitRead(n: nat)
    ensures IsDigit(Digit(n)) && Digit(n) as int - '0' as int == n % 10
  {
    var d := n % 10;
    assert d == 0 || d == 1 || d == 2 || d == 3 || d == 4 || d == 5 || d == 6 || d == 7 || d == 8 || d == 9;
  }

  lemma FourDigits(a: char, b: char, c: char, d: char)
    requires IsDigit(a) && IsDigit(b) && IsDigit(c) && IsDigit(d)
    ensures Value([a, b, c, d]) ==
            1000 * (a as int - '0' as int) + 100 * (b as int - '0' as int) +
              10 * (c as int - '0' as int) + (d as int - '0' as int)
  {
    assert [a, b, c, d][..3] == [a, b, c] && [a, b, c][..2] == [a, b] && [a, b][..1] == [a] && [a][..0] == [];
    assert Value([a]) == a as int - '0' as int;
    assert Value([a, b]) == 10 * Value([a]) + (b as int - '0' as int);
    assert Value([a, b, c]) == 10 * Value([a, b]) + (c as int - '0' as int);
  }

  lemma Thousands(n: nat)
    requires n < 10000
    ensures n == 1000 * (n / 1000 % 10) + 100 * (n / 100 % 10) + 10 * (n / 10 % 10) + n % 10
  {
    assert n / 1000 % 10 == n / 1000;
    assert n / 100 == 10 * (n / 1000) + n / 100 % 10;
    assert n / 10 == 10 * (n / 100) + n / 10 % 10;
  }

  /** A run's directory reads back as its number, up to the limit. */
  lemma NameReadsBack(number: nat, date: string)
    requires number <= MAX_RUN_NUMBER
    ensures RunNumber(DirName(number, date)) == Some(number)
  {
    hide Digit, Value;
    DigitRead(number / 1000);
    DigitRead(number / 100);
    DigitRead(number / 10);
    DigitRead(number);
    var name := DirName(number, date);
    FourDigits(name[0], name[1], name[2], name[3]);
    assert name[..4] == [name[0], name[1], name[2], name[3]];
    Thousands(number);
  }

  lemma DigitWritten(c: char, n: nat)
    requires IsDigit(c) && n % 10 == c as int - '0' as int
    ensures Digit(n) == c
  {
    DigitRead(n);
  }

  lemma Places(a: nat, b: nat, c: nat, d: nat)
    requires a < 10 && b < 10 && c < 10 && d < 10
    ensures var n := 1000 * a + 100 * b + 10 * c + d;
            n / 1000 % 10 == a && n / 100 % 10 == b && n / 10 % 10 == c && n % 10 == d && n <= 9999
  {
    var n := 1000 * a + 100 * b + 10 * c + d;
    assert n / 10 == 100 * a + 10 * b + c;
    assert n / 100 == 10 * a + b;
    assert n / 1000 == a;
  }

  /** A name has a number exactly when it is some date's directory of that number. */
  lemma RunNumberIff(name: string, n: nat)
    ensures RunNumber(name) == Some(n) <==> n <= 9999 && exists date :: name == DirName(n, date)
  {
    hide Digit, Value;
    if n <= 9999 {
      forall date | name == DirName(n, date) ensures RunNumber(name) == Some(n) {
        NameReadsBack(n, date);
      }
    }
    if RunNumber(name) == Some(n) {
      FourDigits(name[0], name[1], name[2], name[3]);
      assert name[..4] == [name[0], name[1], name[2], name[3]];
      var zero := '0' as int;
      Places(name[0] as int - zero, name[1] as int - zero, name[2] as int - zero, name[3] as int - zero);
      DigitWritten(name[0], n / 1000);
      DigitWritten(name[1], n / 100);
      DigitWritten(name[2], n / 10);
      DigitWritten(name[3], n);
      assert name == DirName(n, name[5..]);
    }
  }

  lemma FirstDirectory()
    ensures DirName(1, "2026-01-02") == "0001-2026-01-02" && DirName(9876, "d") == "9876-d"
  {
    assert 9876 / 1000 % 10 == 9 && 9876 / 100 % 10 == 8 && 9876 / 10 % 10 == 7 && 9876 % 10 == 6;
    assert 1 / 1000 % 10 == 0 && 1 / 100 % 10 == 0 && 1 / 10 % 10 == 0;
  }

  // --- numbering ---------------------------------------------------------------------------------------

  /** What the logs directory lists. */
  datatype Entry = Entry(name: string, isDir: bool)

  function HighestNumber(listing: seq<Entry>): nat {
    if listing == [] then 0
    else
      var before, e := HighestNumber(listing[..|listing| - 1]), listing[|listing| - 1];
      if e.isDir && RunNumber(e.name).Some? then Max(before, RunNumber(e.name).value) else before
  }

  predicate IsRun(e: Entry, number: nat) {
    e.isDir && RunNumber(e.name) == Some(number)
  }

  /** One more than the highest run there is, one where there is none. */
  method NextRunNumber(listing: seq<Entry>) returns (number: nat)
    ensures number == HighestNumber(listing) + 1
    ensures forall i, n: nat :: 0 <= i < |listing| && IsRun(listing[i], n) ==> n < number
    ensures number > 0
    ensures number == 1 || exists i :: 0 <= i < |listing| && IsRun(listing[i], number - 1)
  {
    var highest := 0;
    for i := 0 to |listing|
      invariant highest == HighestNumber(listing[..i])
      invariant forall j, n: nat :: 0 <= j < i && IsRun(listing[j], n) ==> n <= highest
      invariant highest == 0 || exists j :: 0 <= j < i && IsRun(listing[j], highest)
    {
      assert listing[..i + 1][..i] == listing[..i];
      var e := listing[i];
      if e.isDir && RunNumber(e.name).Some? {
        assert IsRun(listing[i], RunNumber(e.name).value);
        highest := Max(highest, RunNumber(e.name).value);
      }
    }
    assert listing[..|listing|] == listing;
    number := highest + 1;
  }

  lemma {:induction false} HighestIsHighest(listing: seq<Entry>, i: nat, n: nat)
    requires i < |listing| && IsRun(listing[i], n)
    ensures n <= HighestNumber(listing)
    decreases |listing|
  {
    if i < |listing| - 1 {
      HighestIsHighest(listing[..|listing| - 1], i, n);
    }
  }

  /** `mkdir` raises for any entry of the name, a plain file included. */
  predicate Taken(listing: seq<Entry>, name: string) {
    exists i :: 0 <= i < |listing| && listing[i].name == name
  }

  /** A call's directory, or its way out: pytest.exit at the limit, or
      FileExistsError. */
  datatype Made = Dir(name: string) | LimitReached | FileExists

  /** The part of the session that owns the run's log directory. */
  class LogDir {
    /** The logs directory, and this run's directory once there is one. */
    var listing: seq<Entry>
    var runLogDir: Option<string>

    constructor (listing: seq<Entry>)
      ensures this.listing == listing && runLogDir == None
    {
      this.listing, runLogDir := listing, None;
    }

    /** This run's directory, made by the first call that can. */
    method RunLogDir(date: string) returns (r: Made)
      modifies this
      ensures old(runLogDir).Some? ==> r == Dir(old(runLogDir).value)
      ensures old(runLogDir) == None ==>
                var number := HighestNumber(old(listing)) + 1;
                && (r.LimitReached? <==> number > MAX_RUN_NUMBER)
                && (r.FileExists? <==> number <= MAX_RUN_NUMBER && Taken(old(listing), DirName(number, date)))
                && (r.Dir? ==> RunNumber(r.name) == Some(number))
      ensures runLogDir == if r.Dir? then Some(r.name) else None
      ensures listing == old(listing) + if old(runLogDir) == None && r.Dir? then [Entry(r.name, true)] else []
    {
      if runLogDir.Some? {
        return Dir(runLogDir.value);
      }
      var number := NextRunNumber(listing);
      if number > MAX_RUN_NUMBER {
        return LimitReached;
      }
      NameReadsBack(number, date);
      var dir := DirName(number, date);
      if Taken(listing, dir) {
        return FileExists;
      }
      listing, runLogDir := listing + [Entry(dir, true)], Some(dir);
      return Dir(dir);
    }
  }

  // --- one directory for all the boots -------------------------------------------------------------------

  /** Where a boot's thread is in `run_log_dir`; from `Entered` to `Leaving` it has
      the lock. `Refused` left by the limit or by FileExistsError. */
  datatype Pc =
    | Entered
    | Numbering
    | Making(number: nat)
    | Storing(dir: string)
    | Leaving(dir: string)
    | Returned(dir: string)
    | Refused

  /** `created` are the directories this run made. */
  datatype State = State(
    listing: seq<Entry>, runLogDir: Option<string>, owner: Option<nat>,
    threads: map<nat, Pc>, created: seq<string>)

  datatype Step =
    | Enter(thread: nat)
    | Look(thread: nat)
    | Number(thread: nat)
    | Make(thread: nat, date: string)
    | Store(thread: nat)
    | Leave(thread: nat)

  function Apply(s: State, step: Step): Option<State> {
    var t := step.thread;
    match step
    case Enter(_) =>
      if t !in s.threads && s.owner == None then Some(s.(owner := Some(t),
          threads := s.threads[t := Entered])) else None
    case Look(_) =>
      if t !in s.threads || !s.threads[t].Entered? then None
      else Some(s.(threads := s.threads[t := if s.runLogDir.Some? then Leaving(s.runLogDir.value) else Numbering]))
    case Number(_) =>
      if t !in s.threads || !s.threads[t].Numbering? then None
      else
        var number := HighestNumber(s.listing) + 1;
        if number > MAX_RUN_NUMBER then Some(s.(owner := None, threads := s.threads[t := Refused]))
        else Some(s.(threads := s.threads[t := Making(number)]))
    case Make(_, date) =>
      if t !in s.threads || !s.threads[t].Making? then None
      else
        var dir := DirName(s.threads[t].number, date);
        if Taken(s.listing, dir) then Some(s.(owner := None, threads := s.threads[t := Refused]))
        else Some(s.(listing := s.listing + [Entry(dir, true)], created := s.created + [dir],
                threads := s.threads[t := Storing(dir)]))
    case Store(_) =>
      if t !in s.threads || !s.threads[t].Storing? then None
      else Some(s.(runLogDir := Some(s.threads[t].dir), threads := s.threads[t := Leaving(s.threads[t].dir)]))
    case Leave(_) =>
      if t !in s.threads || !s.threads[t].Leaving? then None
      else Some(s.(owner := None, threads := s.threads[t := Returned(s.threads[t].dir)]))
  }

  function Start(listing: seq<Entry>): State {
    State(listing, None, None, map[], [])
  }

  function Run(s: State, steps: seq<Step>): Option<State> {
    if steps == [] then Some(s)
    else match Run(s, steps[..|steps| - 1])
      case None => None
      case Some(before) => Apply(before, steps[|steps| - 1])
  }

  predicate HasLock(pc: Pc) {
    !pc.Returned? && !pc.Refused?
  }

  /** No run can be made, or none by some date: the limit is reached, or a file
      has the name a directory would get. */
  ghost predicate Blocked(before: seq<Entry>) {
    var number := HighestNumber(before) + 1;
    number > MAX_RUN_NUMBER || exists date :: Taken(before, DirName(number, date))
  }

  /** What one thread has done agrees with what is there. */
  ghost predicate ThreadOk(before: seq<Entry>, s: State, pc: Pc) {
    match pc
    case Entered => s.runLogDir.Some? <==> s.created != []
    case Numbering => s.runLogDir == None && s.created == []
    case Making(n) => s.runLogDir == None && s.created == [] && n == HighestNumber(s.listing) + 1 <= MAX_RUN_NUMBER
    case Storing(dir) => s.runLogDir == None && s.created == [dir]
    case Leaving(dir) => s.runLogDir == Some(dir) && s.created == [dir]
    case Returned(dir) => s.runLogDir == Some(dir) && s.created == [dir]
    case Refused => Blocked(before)
  }

  /** What was made is numbered above everything there was, and there is one of it. */
  ghost predicate CreatedOk(before: seq<Entry>, s: State) {
    if s.created == [] then s.listing == before && s.runLogDir == None
    else
      && |s.created| == 1 && s.listing == before + [Entry(s.created[0], true)]
      && RunNumber(s.created[0]) == Some(HighestNumber(before) + 1)
      && (s.runLogDir.Some? ==> s.runLogDir == Some(s.created[0]))
  }

  ghost predicate Inv(before: seq<Entry>, s: State) {
    && CreatedOk(before, s)
    && (forall t :: t in s.threads ==> ThreadOk(before, s, s.threads[t]))
    && (forall t :: t in s.threads ==> (HasLock(s.threads[t]) <==> s.owner == Some(t)))
    && (s.owner.Some? ==> s.owner.value in s.threads)
    && (s.owner == None ==> (s.runLogDir.Some? <==> s.created != []))
  }

  lemma BlockedWhen(before: seq<Entry>, number: nat, date: string)
    requires number == HighestNumber(before) + 1
    ensures number > MAX_RUN_NUMBER || Taken(before, DirName(number, date)) ==> Blocked(before)
  {
  }

  lemma StepKeepsInv(before: seq<Entry>, s: State, step: Step)
    requires Inv(before, s) && Apply(s, step).Some?
    ensures Inv(before, Apply(s, step).value)
  {
    hide Blocked, Taken, DirName, RunNumber, HighestNumber;
    if step.Make? {
      NameReadsBack(s.threads[step.thread].number, step.date);
      BlockedWhen(before, s.threads[step.thread].number, step.date);
    }
    BlockedWhen(before, HighestNumber(before) + 1, "");
    var next := Apply(s, step).value;
    forall t | t in next.threads ensures ThreadOk(before, next, next.threads[t]) {
      if t != step.thread {
        assert ThreadOk(before, s, s.threads[t]);
        assert HasLock(s.threads[t]) ==> s.owner == Some(t);
      }
    }
  }

  /** However the boots interleave, the run makes one directory at most, every boot
      that gets one gets that one, and its number is one above every run before; a
      boot goes without only at the limit or behind a file of the name. */
  lemma {:induction false} OneDirectory(before: seq<Entry>, steps: seq<Step>)
    requires Run(Start(before), steps).Some?
    ensures var s := Run(Start(before), steps).value;
            && Inv(before, s) && |s.created| <= 1
            && (forall t :: t in s.threads && s.threads[t].Returned? ==> s.created == [s.threads[t].dir])
            && (forall dir :: dir in s.created ==> RunNumber(dir) == Some(HighestNumber(before) + 1))
            && (forall t :: t in s.threads && s.threads[t].Refused? ==> Blocked(before))
  {
    hide Blocked, DirName, RunNumber, HighestNumber, Apply;
    if steps != [] {
      OneDirectory(before, steps[..|steps| - 1]);
      StepKeepsInv(before, Run(Start(before), steps[..|steps| - 1]).value, steps[|steps| - 1]);
    }
    var s := Run(Start(before), steps).value;
    forall t | t in s.threads
      ensures s.threads[t].Returned? ==> s.created == [s.threads[t].dir]
      ensures s.threads[t].Refused? ==> Blocked(before)
    {
      assert ThreadOk(before, s, s.threads[t]);
    }
  }

  /** Making the directory fails exactly on an entry of its name that is no
      directory: those have all been counted. */
  lemma NewDirectory(before: seq<Entry>, date: string)
    requires HighestNumber(before) + 1 <= MAX_RUN_NUMBER
    ensures var name := DirName(HighestNumber(before) + 1, date);
            Taken(before, name) <==> exists i :: 0 <= i < |before| && !before[i].isDir && before[i].name == name
  {
    hide DirName, RunNumber, HighestNumber;
    var number := HighestNumber(before) + 1;
    NameReadsBack(number, date);
    forall i | 0 <= i < |before| && before[i].isDir ensures before[i].name != DirName(number, date) {
      if before[i].name == DirName(number, date) {
        HighestIsHighest(before, i, number);
      }
    }
  }
}
