/** A command's output out of what the console printed for it. */
module Shell {
  import opened Common
  import opened Text

  const ESC: char := '\U{1b}'

  // --- escape sequences ----------------------------------------------------------------------------

  predicate IsParam(c: char) {
    '0' <= c <= '9' || c == ';' || c == '?'
  }

  predicate IsLetter(c: char) {
    'a' <= c <= 'z' || 'A' <= c <= 'Z'
  }

  predicate IsCharset(c: char) {
    'A' <= c <= 'Z' || '0' <= c <= '9'
  }

  /** The end of the parameters that start at `i`. */
  function ParamsEnd(s: string, i: nat): (j: nat)
    requires i <= |s|
    ensures i <= j <= |s|
    decreases |s| - i
  {
    if i < |s| && IsParam(s[i]) then ParamsEnd(s, i + 1) else i
  }

  /** The length of the escape sequence `s` starts with, 0 where it starts with none. */
  function EscapeLength(s: string): (n: nat)
    ensures n <= |s|
  {
    if |s| < 2 || s[0] != ESC then 0
    else if s[1] == '[' then
      var end := ParamsEnd(s, 2);
      if end < |s| && IsLetter(s[end]) then end + 1 else 0
    else if s[1] == '(' || s[1] == ')' then
      if 2 < |s| && IsCharset(s[2]) then 3 else 0
    else if s[1] == '=' || s[1] == '>' then 2
    else 0
  }

  function StripAnsi(s: string): string
    decreases |s|
  {
    if s == [] then []
    else if EscapeLength(s) > 0 then StripAnsi(s[EscapeLength(s)..])
    else [s[0]] + StripAnsi(s[1..])
  }

  datatype Piece =
    | Plain(c: char)
    | Control(params: string, letter: char)
    | Charset(paren: char, c: char)
    | Keypad(c: char)

  /** An escape sequence of the pattern. */
  ghost predicate Sequence(p: Piece) {
    match p
    case Plain(_) => false
    case Control(params, letter) =>
      && (forall i :: 0 <= i < |params| ==> '0' <= params[i] <= '9' || params[i] == ';' || params[i] == '?')
      && ('a' <= letter <= 'z' || 'A' <= letter <= 'Z')
    case Charset(paren, c) => (paren == '(' || paren == ')') && ('A' <= c <= 'Z' || '0' <= c <= '9')
    case Keypad(c) => c == '=' || c == '>'
  }

  function PrintOne(p: Piece): string {
    match p
    case Plain(c) => [c]
    case Control(params, letter) => ['\U{1b}', '['] + params + [letter]
    case Charset(paren, c) => ['\U{1b}', paren, c]
    case Keypad(c) => ['\U{1b}', c]
  }

  function Print(ps: seq<Piece>): string {
    if ps == [] then [] else PrintOne(ps[0]) + Print(ps[1..])
  }

  function Plains(ps: seq<Piece>): string {
    if ps == [] then []
    else (if ps[0].Plain? then [ps[0].c] else []) + Plains(ps[1..])
  }

  lemma {:induction false} ParamsEndAt(s: string, i: nat, n: nat)
    requires i <= n < |s|
    requires forall k :: i <= k < n ==> IsParam(s[k])
    requires IsLetter(s[n])
    ensures ParamsEnd(s, i) == n
    decreases n - i
  {
    if i < n {
      ParamsEndAt(s, i + 1, n);
    }
  }

  lemma EscapeAtHead(p: Piece, rest: string)
    requires Sequence(p)
    ensures EscapeLength(PrintOne(p) + rest) == |PrintOne(p)| > 0
  {
    var s := PrintOne(p) + rest;
    if p.Control? {
      assert forall k :: 2 <= k < 2 + |p.params| ==> s[k] == p.params[k - 2];
      ParamsEndAt(s, 2, 2 + |p.params|);
    }
  }

  lemma {:induction false} ParamsBefore(s: string, i: nat)
    requires i <= |s|
    ensures forall k :: i <= k < ParamsEnd(s, i) ==> IsParam(s[k])
    decreases |s| - i
  {
    if i < |s| && IsParam(s[i]) {
      ParamsBefore(s, i + 1);
    }
  }

  /** No escape sequence starts `s`. */
  ghost predicate NoneStarts(s: string) {
    forall p :: Sequence(p) ==> !(PrintOne(p) <= s)
  }

  lemma SequenceThere(s: string) returns (p: Piece)
    requires EscapeLength(s) > 0
    ensures Sequence(p) && PrintOne(p) == s[..EscapeLength(s)]
  {
    hide ParamsEnd;
    if s[1] == '[' {
      var end := ParamsEnd(s, 2);
      ParamsBefore(s, 2);
      p := Control(s[2..end], s[end]);
      assert s[..end + 1] == s[..2] + s[2..end] + [s[end]];
      assert s[..2] == ['\U{1b}', '['];
    } else if s[1] == '(' || s[1] == ')' {
      p := Charset(s[1], s[2]);
      assert s[..3] == ['\U{1b}', s[1], s[2]];
    } else {
      p := Keypad(s[1]);
      assert s[..2] == ['\U{1b}', s[1]];
    }
  }

  lemma EscapeIff(s: string)
    ensures EscapeLength(s) == 0 <==> NoneStarts(s)
  {
    hide EscapeLength, Sequence, PrintOne;
    if EscapeLength(s) > 0 {
      var p := SequenceThere(s);
    } else {
      forall p | Sequence(p) ensures !(PrintOne(p) <= s) {
        if PrintOne(p) <= s {
          assert s == PrintOne(p) + s[|PrintOne(p)|..];
          EscapeAtHead(p, s[|PrintOne(p)|..]);
        }
      }
    }
  }

  /** Escape sequences from the left, and plain characters where none starts. */
  ghost predicate TextOk(ps: seq<Piece>) {
    ps == [] || ((if ps[0].Plain? then NoneStarts(Print(ps)) else Sequence(ps[0])) && TextOk(ps[1..]))
  }

  /** Escape sequences go, all else stays, an escape that opens none included. */
  lemma {:induction false} StripsPieces(ps: seq<Piece>)
    requires TextOk(ps)
    ensures StripAnsi(Print(ps)) == Plains(ps)
  {
    hide NoneStarts, Sequence, EscapeLength;
    if ps != [] {
      var rest := Print(ps[1..]);
      StripsPieces(ps[1..]);
      if ps[0].Plain? {
        EscapeIff(Print(ps));
        assert ([ps[0].c] + rest)[1..] == rest;
      } else {
        EscapeAtHead(ps[0], rest);
        assert (PrintOne(ps[0]) + rest)[|PrintOne(ps[0])|..] == rest;
      }
    }
  }

  /** Every text is such pieces. */
  lemma {:induction false} TextPieces(s: string) returns (ps: seq<Piece>)
    ensures TextOk(ps) && Print(ps) == s
    decreases |s|
  {
    hide NoneStarts, Sequence, EscapeLength;
    ps := [];
    if s != [] {
      var p, n := Plain(s[0]), 1;
      EscapeIff(s);
      if EscapeLength(s) > 0 {
        n := EscapeLength(s);
        p := SequenceThere(s);
        IsNotPlain(p);
      }
      var rest := TextPieces(s[n..]);
      ps := [p] + rest;
      assert ps[1..] == rest;
      assert s == s[..n] + s[n..] && s[..1] == [s[0]];
    }
  }

  lemma IsNotPlain(p: Piece)
    requires Sequence(p)
    ensures !p.Plain?
  {
  }

  /** So of any text `StripAnsi` leaves `t` exactly when those pieces do. */
  lemma StripAnsiIff(s: string, t: string)
    ensures StripAnsi(s) == t <==> exists ps :: TextOk(ps) && Print(ps) == s && Plains(ps) == t
  {
    hide TextOk, StripAnsi, Plains, Print;
    var ps := TextPieces(s);
    StripsPieces(ps);
    if qs :| TextOk(qs) && Print(qs) == s && Plains(qs) == t {
      StripsPieces(qs);
    }
  }

  // --- lines ---------------------------------------------------------------------------------------

  function DropReturns(s: string): string {
    if s == [] then []
    else (if s[0] == '\r' then [] else [s[0]]) + DropReturns(s[1..])
  }

  /** `s.split("\n")` */
  function Split(s: string): (lines: seq<string>)
    ensures lines != []
  {
    if s == [] then [[]]
    else
      var rest := Split(s[1..]);
      if s[0] == '\n' then [[]] + rest else [[s[0]] + rest[0]] + rest[1..]
  }

  lemma {:induction false} JoinSplit(s: string)
    ensures Join("\n", Split(s)) == s
  {
    if s != [] {
      var rest := Split(s[1..]);
      JoinSplit(s[1..]);
      if s[0] == '\n' {
        assert ([[]] + rest)[1..] == rest;
        assert Join("\n", [[]] + rest) == [] + "\n" + Join("\n", rest);
        assert [] + "\n" + s[1..] == s;
      } else {
        var lines := [[s[0]] + rest[0]] + rest[1..];
        assert lines[1..] == rest[1..];
        assert Join("\n", lines) == [s[0]] + Join("\n", rest);
        assert s == [s[0]] + s[1..];
      }
    }
  }

  lemma {:induction false} SplitFirst(line: string, rest: string)
    requires '\n' !in line
    ensures Split(line + "\n" + rest) == [line] + Split(rest)
  {
    if line == [] {
      assert line + "\n" + rest == "\n" + rest;
      assert ("\n" + rest)[1..] == rest;
    } else {
      var all, tail := line + "\n" + rest, Split(line[1..] + "\n" + rest);
      assert all[1..] == line[1..] + "\n" + rest;
      SplitFirst(line[1..], rest);
      assert Split(all) == [[line[0]] + tail[0]] + tail[1..];
      assert line == [line[0]] + line[1..];
    }
  }

  lemma {:induction false} SplitLast(s: string, line: string)
    requires '\n' !in line
    ensures Split(s + "\n" + line) == Split(s) + [line]
  {
    if s == [] {
      assert s + "\n" + line == [] + "\n" + line;
      SplitFirst([], line);
      OneLine(line);
    } else {
      var all := s + "\n" + line;
      assert all[1..] == s[1..] + "\n" + line;
      SplitLast(s[1..], line);
    }
  }

  lemma {:induction false} OneLine(line: string)
    requires '\n' !in line
    ensures Split(line) == [line]
  {
    if line != [] {
      OneLine(line[1..]);
      assert line == [line[0]] + line[1..];
    }
  }

  /** What `run` returns of the console text up to the prompt. */
  function Output(text: string): string {
    var lines := Split(DropReturns(StripAnsi(text)));
    Strip(Join("\n", if |lines| < 2 then [] else lines[1..|lines| - 1]))
  }

  /** What the pieces show: the plain characters but the carriage returns. */
  function Shown(ps: seq<Piece>): string {
    if ps == [] then []
    else (if ps[0].Plain? && ps[0].c != '\r' then [ps[0].c] else []) + Shown(ps[1..])
  }

  lemma {:induction false} ShownIsLeft(ps: seq<Piece>)
    ensures DropReturns(Plains(ps)) == Shown(ps)
  {
    if ps != [] {
      ShownIsLeft(ps[1..]);
      if ps[0].Plain? {
        assert ([ps[0].c] + Plains(ps[1..]))[1..] == Plains(ps[1..]);
      } else {
        assert [] + Plains(ps[1..]) == Plains(ps[1..]);
        assert [] + Shown(ps[1..]) == Shown(ps[1..]);
      }
    }
  }

  /** A command's output is what stands between the line that echoes it and the
      line of the next prompt, however the shell colours them and whatever
      carriage returns it sends, less the white space around it. */
  lemma OutputIsBetweenEchoAndPrompt(ps: seq<Piece>, echo: string, before: string, output: string, after: string,
        prompt: string)
    requires TextOk(ps) && Shown(ps) == echo + "\n" + (before + output + after + "\n" + prompt)
    requires '\n' !in echo && '\n' !in prompt
    requires AllSpace(before) && AllSpace(after) && Trimmed(output)
    ensures Output(Print(ps)) == output
  {
    hide DropReturns, StripAnsi, Strip, Split, Join, Plains, Shown, Print, TextOk, AllSpace, Trimmed;
    StripsPieces(ps);
    ShownIsLeft(ps);
    var body := before + output + after;
    SplitFirst(echo, body + "\n" + prompt);
    SplitLast(body, prompt);
    JoinSplit(body);
    StripPadded(before, output, after);
    var lines := [echo] + (Split(body) + [prompt]);
    assert lines[1..|lines| - 1] == Split(body);
  }

  /** A command that printed nothing leaves nothing, nor does a text of one line. */
  lemma NoOutput(ps: seq<Piece>, echo: string, prompt: string)
    requires TextOk(ps) && '\n' !in echo && '\n' !in prompt
    requires Shown(ps) == echo + "\n" + prompt || Shown(ps) == echo
    ensures Output(Print(ps)) == []
  {
    hide TextOk, Shown, DropReturns, StripAnsi;
    StripsPieces(ps);
    ShownIsLeft(ps);
    if Shown(ps) == echo {
      OneLine(echo);
    } else {
      SplitFirst(echo, prompt);
      OneLine(prompt);
      assert Split(echo + "\n" + prompt)[1..1] == [];
    }
  }
}
