/** Menu entries out of a `grub.cfg`, and the kernel parameter added to one. */
module GrubCfg {
  import opened Common
  import opened Text

  // --- lines ---------------------------------------------------------------------------------------

  /** What `str.splitlines` breaks at, in ASCII. */
  predicate IsBreak(c: char) {
    '\n' <= c <= '\r' || '\U{1c}' <= c <= '\U{1e}'
  }

  predicate OneLine(s: string) {
    forall i :: 0 <= i < |s| ==> !IsBreak(s[i])
  }

  function LineLength(s: string): (n: nat)
    ensures n <= |s| && OneLine(s[..n]) && (n < |s| ==> IsBreak(s[n]))
  {
    if s == [] || IsBreak(s[0]) then 0
    else
      var n := LineLength(s[1..]);
      assert s[..n + 1] == [s[0]] + s[1..][..n];
      n + 1
  }

  function SplitLines(s: string): seq<string>
    decreases |s|
  {
    if s == [] then []
    else
      var n := LineLength(s);
      if n == |s| then [s]
      else if s[n] == '\r' && n + 1 < |s| && s[n + 1] == '\n' then [s[..n]] + SplitLines(s[n + 2..])
      else [s[..n]] + SplitLines(s[n + 1..])
  }

  lemma {:induction false} LineLengthAt(line: string, rest: string)
    requires OneLine(line)
    ensures LineLength(line + "\n" + rest) == |line|
  {
    if line == [] {
      assert line + "\n" + rest == "\n" + rest;
    } else {
      assert (line + "\n" + rest)[1..] == line[1..] + "\n" + rest;
      LineLengthAt(line[1..], rest);
    }
  }

  lemma SplitFirst(line: string, rest: string)
    requires OneLine(line)
    ensures SplitLines(line + "\n" + rest) == [line] + SplitLines(rest)
  {
    var s := line + "\n" + rest;
    LineLengthAt(line, rest);
    assert s[..|line|] == line && s[|line| + 1..] == rest;
  }

  lemma {:induction false} LinesAreLines(s: string)
    ensures forall line :: line in SplitLines(s) ==> OneLine(line)
    decreases |s|
  {
    if s != [] {
      var n := LineLength(s);
      if n < |s| {
        LinesAreLines(s[n + 1..]);
        if n + 1 < |s| {
          LinesAreLines(s[n + 2..]);
        }
      } else {
        assert s[..n] == s;
      }
    }
  }

  // --- the menuentry pattern ---------------------------------------------------------------------------

  const MENUENTRY: string := "menuentry"

  predicate IsQuote(c: char) {
    c == '\'' || c == '"'
  }

  /** One way for a line to match the pattern: these blanks, this quote. */
  ghost predicate Matches(line: string, title: string, quote: char, before: string, after: string) {
    && line == "menuentry" + before + [quote] + title + [quote] + after + "{"
    && before != [] && AllSpace(before) && AllSpace(after) && (quote == '\'' || quote == '"')
  }

  /** The title of a line that opens an entry, found from both its ends. */
  function EntryTitle(line: string): Option<string> {
    if !(MENUENTRY <= line) then None
    else
      var rest := line[|MENUENTRY|..];
      var quoted := LStrip(rest);
      if quoted == rest || quoted == [] || !IsQuote(quoted[0]) || quoted[|quoted| - 1] != '{' then None
      else
        var body := RStrip(quoted[1..|quoted| - 1]);
        if body == [] || body[|body| - 1] != quoted[0] then None else Some(body[..|body| - 1])
  }

  /** Whatever way a line matches, it is the title `EntryTitle` finds: quotes inside
      a title are part of it, since only the last can close it. */
  lemma MatchGivesTitle(line: string, title: string, quote: char, before: string, after: string)
    requires Matches(line, title, quote, before, after)
    ensures EntryTitle(line) == Some(title)
  {
    var quoted := [quote] + title + [quote] + after + "{";
    var rest := before + quoted;
    assert line == MENUENTRY + rest;
    assert line[|MENUENTRY|..] == rest;
    LStripSpaces(before, quoted);
    assert quoted[1..|quoted| - 1] == title + [quote] + after;
    RStripSpaces(title + [quote], after);
    assert (title + [quote])[..|title|] == title;
  }

  lemma TitleGivesMatch(line: string) returns (quote: char, before: string, after: string)
    requires EntryTitle(line).Some?
    ensures Matches(line, EntryTitle(line).value, quote, before, after)
  {
    hide LStrip, RStrip, AllSpace;
    var rest := line[|MENUENTRY|..];
    var quoted := LStrip(rest);
    LStripSplits(rest);
    before := rest[..|rest| - |quoted|];
    quote := quoted[0];
    var inner := quoted[1..|quoted| - 1];
    RStripSplits(inner);
    var body, title := RStrip(inner), EntryTitle(line).value;
    after := inner[|body|..];
    assert body == title + [quote];
    assert quoted == [quote] + inner + "{";
    assert line == MENUENTRY + (before + ([quote] + (title + [quote] + after) + "{"));
  }

  // --- entries -------------------------------------------------------------------------------------------

  type Menu = Dict<string, seq<string>>

  /** Between two lines: the entry being read, and what was found. */
  datatype Place = Place(title: Option<string>, found: Menu)

  function ReadLine(p: Place, raw: string): Place {
    var line := Strip(raw);
    match p.title
    case None =>
      (match EntryTitle(line)
       case Some(title) => Place(Some(title), p.found.Put(title, []))
       case None => p)
    case Some(title) =>
      if line == "}" then Place(None, p.found)
      else if line != [] && line[0] != '#' && title in p.found.vals
      then Place(p.title, p.found.Put(title, p.found.vals[title] + [line]))
      else p
  }

  function ReadLines(p: Place, lines: seq<string>): Place
    decreases |lines|
  {
    if lines == [] then p else ReadLines(ReadLine(p, lines[0]), lines[1..])
  }

  function EntriesOf(config: string): Menu {
    ReadLines(Place(None, EmptyDict()), SplitLines(config)).found
  }

  method Entries(config: string) returns (found: Menu)
    ensures found == EntriesOf(config)
  {
    found := EmptyDict();
    var title: Option<string> := None;
    var lines := SplitLines(config);
    assert lines[0..] == lines;
    for i := 0 to |lines|
      invariant ReadLines(Place(None, EmptyDict()), lines) == ReadLines(Place(title, found), lines[i..])
      invariant title.Some? ==> title.value in found.vals
    {
      assert lines[i..][1..] == lines[i + 1..];
      var line := Strip(lines[i]);
      if title == None {
        var matched := EntryTitle(line);
        if matched.Some? {
          title := matched;
          found := found.Put(matched.value, []);
        }
      } else if line == "}" {
        title := None;
      } else if line != [] && line[0] != '#' {
        found := found.Put(title.value, found.vals[title.value] + [line]);
      }
    }
  }

  // --- what an entry can hold ------------------------------------------------------------------------------

  ghost predicate CommandOk(c: string) {
    c != [] && Trimmed(c) && OneLine(c) && c != "}" && c[0] != '#'
  }

  ghost predicate CommandsOk(cs: seq<string>) {
    forall i :: 0 <= i < |cs| ==> CommandOk(cs[i])
  }

  ghost predicate MenuOk(m: Menu) {
    && Distinct(m.keys) && (forall t :: t in m.vals <==> t in m.keys)
    && (forall t :: t in m.vals ==> OneLine(t) && CommandsOk(m.vals[t]))
  }

  lemma TitleIsOneLine(line: string)
    requires OneLine(line) && EntryTitle(line).Some?
    ensures OneLine(EntryTitle(line).value)
  {
    var quote, before, after := TitleGivesMatch(line);
    var title := EntryTitle(line).value;
    forall i | 0 <= i < |title| ensures !IsBreak(title[i]) {
      assert line[|MENUENTRY| + |before| + 1 + i] == title[i];
    }
  }

  lemma StripIsOneLine(raw: string)
    requires OneLine(raw)
    ensures OneLine(Strip(raw))
  {
    StripTrims(raw);
    forall i | 0 <= i < |Strip(raw)| ensures !IsBreak(Strip(raw)[i]) {
      assert Strip(raw)[i] in raw;
    }
  }

  ghost predicate PlaceOk(p: Place) {
    MenuOk(p.found) && (p.title.Some? ==> p.title.value in p.found.vals)
  }

  lemma PutKeepsMenu(m: Menu, title: string, commands: seq<string>)
    requires MenuOk(m) && OneLine(title) && CommandsOk(commands)
    ensures MenuOk(m.Put(title, commands))
  {
  }

  lemma ReadLineKeeps(p: Place, raw: string)
    requires PlaceOk(p) && OneLine(raw)
    ensures PlaceOk(ReadLine(p, raw))
  {
    hide EntryTitle, OneLine, MenuOk, CommandOk;
    StripIsOneLine(raw);
    StripTrims(raw);
    var line := Strip(raw);
    match p.title
    case None =>
      if EntryTitle(line).Some? {
        TitleIsOneLine(line);
        PutKeepsMenu(p.found, EntryTitle(line).value, []);
      }
    case Some(title) =>
      if line != "}" && line != [] && line[0] != '#' {
        IsCommand(line);
        InMenu(p.found, title);
        PutKeepsMenu(p.found, title, p.found.vals[title] + [line]);
      }
  }

  lemma IsCommand(line: string)
    requires line != [] && Trimmed(line) && OneLine(line) && line != "}" && line[0] != '#'
    ensures CommandOk(line)
  {
  }

  lemma InMenu(m: Menu, title: string)
    requires MenuOk(m) && title in m.vals
    ensures OneLine(title) && CommandsOk(m.vals[title])
  {
  }

  lemma {:induction false} ReadLinesKeeps(p: Place, lines: seq<string>)
    requires PlaceOk(p) && forall line :: line in lines ==> OneLine(line)
    ensures PlaceOk(ReadLines(p, lines))
    decreases |lines|
  {
    hide PlaceOk, ReadLine, OneLine;
    if lines != [] {
      ReadLineKeeps(p, lines[0]);
      ReadLinesKeeps(ReadLine(p, lines[0]), lines[1..]);
    }
  }

  /** Whatever the text, the titles are single lines and the commands trimmed lines
      that are neither comments nor blank nor the brace that ends an entry. */
  lemma EntriesAreOk(config: string)
    ensures MenuOk(EntriesOf(config))
  {
    LinesAreLines(config);
    ReadLinesKeeps(Place(None, EmptyDict()), SplitLines(config));
  }

  // --- printing a menu and reading it back -------------------------------------------------------------------

  function PrintCommands(cs: seq<string>): string {
    if cs == [] then [] else "  " + cs[0] + "\n" + PrintCommands(cs[1..])
  }

  function Header(title: string): string {
    MENUENTRY + " " + "'" + title + "'" + " " + "{"
  }

  function PrintEntries(titles: seq<string>, m: Menu): string
    requires forall t :: t in titles ==> t in m.vals
  {
    if titles == [] then []
    else
      Header(titles[0]) + "\n" + (PrintCommands(m.vals[titles[0]]) + ("}" + "\n" + PrintEntries(titles[1..], m)))
  }

  function Print(m: Menu): string
    requires forall t :: t in m.keys ==> t in m.vals
  {
    PrintEntries(m.keys, m)
  }

  lemma {:induction false} ReadCommands(title: string, found: Menu, cs: seq<string>, rest: string)
    requires CommandsOk(cs) && title in found.vals
    ensures ReadLines(Place(Some(title), found), SplitLines(PrintCommands(cs) + rest)) ==
            ReadLines(Place(Some(title), found.Put(title, found.vals[title] + cs)), SplitLines(rest))
    decreases |cs|
  {
    hide ReadLines, SplitLines, CommandOk;
    if cs == [] {
      assert PrintCommands(cs) + rest == rest;
      assert found.vals[title] + cs == found.vals[title];
      assert found.Put(title, found.vals[title]) == found;
    } else {
      var c, more := cs[0], PrintCommands(cs[1..]) + rest;
      ReadCommand(title, found, c, more);
      assert PrintCommands(cs) + rest == "  " + c + "\n" + more;
      var next := found.Put(title, found.vals[title] + [c]);
      ReadCommands(title, next, cs[1..], rest);
      assert found.vals[title] + [c] + cs[1..] == found.vals[title] + cs;
      assert next.Put(title, found.vals[title] + cs) == found.Put(title, found.vals[title] + cs);
    }
  }

  lemma ReadCommand(title: string, found: Menu, c: string, rest: string)
    requires CommandOk(c) && title in found.vals
    ensures ReadLines(Place(Some(title), found), SplitLines("  " + c + "\n" + rest)) ==
            ReadLines(Place(Some(title), found.Put(title, found.vals[title] + [c])), SplitLines(rest))
  {
    SplitFirst("  " + c, rest);
    StripPadded("  ", c, "");
    assert "  " + c + "" == "  " + c;
    assert ([("  " + c)] + SplitLines(rest))[1..] == SplitLines(rest);
  }

  lemma ReadHeader(found: Menu, title: string, rest: string)
    requires OneLine(title)
    ensures ReadLines(Place(None, found), SplitLines(Header(title) + "\n" + rest)) ==
            ReadLines(Place(Some(title), found.Put(title, [])), SplitLines(rest))
  {
    var line := Header(title);
    assert OneLine(line) by {
      assert forall i :: 0 <= i < |title| ==> line[|MENUENTRY| + 2 + i] == title[i];
    }
    SplitFirst(line, rest);
    StripPadded("", line, "");
    assert "" + line + "" == line;
    MatchGivesTitle(line, title, '\'', " ", " ");
    assert ([line] + SplitLines(rest))[1..] == SplitLines(rest);
  }

  lemma ReadBrace(title: string, found: Menu, rest: string)
    ensures ReadLines(Place(Some(title), found), SplitLines("}" + "\n" + rest)) ==
            ReadLines(Place(None, found), SplitLines(rest))
  {
    SplitFirst("}", rest);
    StripPadded("", "}", "");
    assert "" + "}" + "" == "}";
    assert (["}"] + SplitLines(rest))[1..] == SplitLines(rest);
  }

  /** The dict that reading `titles` one after the other builds. */
  ghost function Added(found: Menu, titles: seq<string>, m: Menu): Menu
    requires forall t :: t in titles ==> t in m.vals
    decreases |titles|
  {
    if titles == [] then found else Added(found.Put(titles[0], m.vals[titles[0]]), titles[1..], m)
  }

  lemma {:induction false} ReadPrinted(found: Menu, titles: seq<string>, m: Menu)
    requires MenuOk(m) && forall t :: t in titles ==> t in m.vals
    ensures ReadLines(Place(None, found), SplitLines(PrintEntries(titles, m))) == Place(None, Added(found, titles, m))
    decreases |titles|
  {
    hide ReadLines, SplitLines, Header, CommandsOk, OneLine;
    if titles == [] {
      NothingToRead(found);
    } else {
      var t, cs := titles[0], m.vals[titles[0]];
      var rest := PrintEntries(titles[1..], m);
      ReadHeader(found, t, PrintCommands(cs) + ("}" + "\n" + rest));
      var begun := found.Put(t, []);
      ReadCommands(t, begun, cs, "}" + "\n" + rest);
      assert begun.Put(t, [] + cs) == found.Put(t, cs) by {
        assert [] + cs == cs;
      }
      ReadBrace(t, found.Put(t, cs), rest);
      ReadPrinted(found.Put(t, cs), titles[1..], m);
    }
  }

  lemma NothingToRead(found: Menu)
    ensures ReadLines(Place(None, found), SplitLines([])) == Place(None, found)
  {
  }

  lemma {:induction false} AddedRebuilds(found: Menu, titles: seq<string>, m: Menu)
    requires forall t :: t in titles ==> t in m.vals && t !in found.vals
    requires Distinct(titles)
    ensures Added(found, titles, m).keys == found.keys + titles
    ensures forall t :: t in Added(found, titles, m).vals <==> t in found.vals || t in titles
    ensures forall t :: t in titles ==> Added(found, titles, m).vals[t] == m.vals[t]
    ensures forall t :: t in found.vals ==> Added(found, titles, m).vals[t] == found.vals[t]
    decreases |titles|
  {
    if titles != [] {
      var t := titles[0];
      assert titles == [t] + titles[1..];
      AddedRebuilds(found.Put(t, m.vals[t]), titles[1..], m);
      assert found.keys + [t] + titles[1..] == found.keys + titles;
    }
  }

  /** Round trip: any menu of one-line titles, quotes in them included, and proper
      commands reads back from its print. */
  lemma PrintedMenuReadsBack(m: Menu)
    requires MenuOk(m)
    ensures EntriesOf(Print(m)) == m
  {
    ReadPrinted(EmptyDict(), m.keys, m);
    AddedRebuilds(EmptyDict(), m.keys, m);
    assert Added(EmptyDict(), m.keys, m).vals == m.vals;
  }

  /** Normal form: printing what any text has and reading it again changes nothing. */
  lemma PrintIsNormalForm(config: string)
    ensures MenuOk(EntriesOf(config)) && EntriesOf(Print(EntriesOf(config))) == EntriesOf(config)
  {
    EntriesAreOk(config);
    PrintedMenuReadsBack(EntriesOf(config));
  }

  // --- the kernel parameter ------------------------------------------------------------------------------------

  datatype ParameterError =
    | IndexError   // a command without a word
    | LookupError  // no entry, or no linux command in it

  predicate IsBlank(c: string) {
    LStrip(c) == []
  }

  function UntilSpace(s: string): string {
    if s == [] || IsSpace(s[0]) then [] else [s[0]] + UntilSpace(s[1..])
  }

  /** `command.split(maxsplit=1)[0]` of a command that is not blank. */
  function FirstWord(c: string): string {
    UntilSpace(LStrip(c))
  }

  predicate IsLinux(c: string) {
    FirstWord(c) == "linux"
  }

  function Edited(c: string, parameter: string): string {
    if IsLinux(c) then c + " " + parameter else c
  }

  /** Exactly the linux commands change, each by the parameter at its end. */
  method WithParameter(commands: seq<string>, parameter: string) returns (r: Result<seq<string>, ParameterError>)
    ensures r == Err(IndexError) <==> exists i :: 0 <= i < |commands| && IsBlank(commands[i])
    ensures r == Err(LookupError) <==>
            forall i :: 0 <= i < |commands| ==> !IsBlank(commands[i]) && !IsLinux(commands[i])
    ensures r.Ok? ==> |r.value| == |commands|
    ensures r.Ok? ==> forall i :: 0 <= i < |commands| ==> r.value[i] == Edited(commands[i], parameter)
  {
    hide IsBlank, FirstWord;
    var out: seq<string> := [];
    var found := false;
    for i := 0 to |commands|
      invariant |out| == i
      invariant forall k :: 0 <= k < i ==> !IsBlank(commands[k])
      invariant found <==> exists k :: 0 <= k < i && IsLinux(commands[k])
      invariant forall k :: 0 <= k < i ==> out[k] == Edited(commands[k], parameter)
    {
      var command := commands[i];
      if IsBlank(command) {
        return Err(IndexError);
      }
      if FirstWord(command) == "linux" {
        command := command + " " + parameter;
        found := true;
      }
      out := out + [command];
    }
    if !found {
      return Err(LookupError);
    }
    return Ok(out);
  }

  /** The commands of one entry of the image's menu, the parameter added if asked. */
  method Commands(config: string, title: string, parameter: Option<string>)
    returns (r: Result<seq<string>, ParameterError>)
    ensures title !in EntriesOf(config).vals ==> r == Err(LookupError)
    ensures title in EntriesOf(config).vals && parameter == None ==> r == Ok(EntriesOf(config).vals[title])
    ensures title in EntriesOf(config).vals && parameter.Some? ==>
              var cs := EntriesOf(config).vals[title];
              && (r == Err(LookupError) <==> forall i :: 0 <= i < |cs| ==> !IsLinux(cs[i]))
              && (r.Ok? ==> |r.value| == |cs| &&
                            forall i :: 0 <= i < |cs| ==> r.value[i] == Edited(cs[i], parameter.value))
    ensures r != Err(IndexError)
  {
    var found := Entries(config);
    if title !in found.vals {
      return Err(LookupError);
    }
    if parameter == None {
      return Ok(found.vals[title]);
    }
    EntriesAreOk(config);
    CommandsAreNotBlank(found.vals[title]);
    r := WithParameter(found.vals[title], parameter.value);
  }

  lemma CommandsAreNotBlank(cs: seq<string>)
    requires CommandsOk(cs)
    ensures forall i :: 0 <= i < |cs| ==> !IsBlank(cs[i])
  {
    forall i | 0 <= i < |cs| ensures !IsBlank(cs[i]) {
      assert CommandOk(cs[i]);
    }
  }

  lemma {:induction false} FirstWordStays(c: string, more: string)
    requires UntilSpace(c) != c || (more != [] && IsSpace(more[0]))
    ensures UntilSpace(c + more) == UntilSpace(c)
  {
    if c == [] {
      assert c + more == more;
    } else {
      assert (c + more)[1..] == c[1..] + more;
      if !IsSpace(c[0]) {
        assert UntilSpace(c[1..]) == c[1..] ==> UntilSpace(c) == c;
        FirstWordStays(c[1..], more);
      }
    }
  }

  /** An edited entry is an entry still: its commands print and read back as
      edited, and what was a linux command is one. */
  lemma EditedEntryReadsBack(m: Menu, title: string, parameter: string)
    requires MenuOk(m) && title in m.vals
    requires parameter != [] && Trimmed(parameter) && OneLine(parameter)
    ensures var cs := m.vals[title];
            var edited := seq(|cs|, i requires 0 <= i < |cs| => Edited(cs[i], parameter));
            && MenuOk(m.Put(title, edited))
            && EntriesOf(Print(m.Put(title, edited))) == m.Put(title, edited)
            && forall i :: 0 <= i < |cs| ==> (IsLinux(edited[i]) <==> IsLinux(cs[i]))
  {
    hide Print, IsLinux;
    var cs := m.vals[title];
    var edited := seq(|cs|, i requires 0 <= i < |cs| => Edited(cs[i], parameter));
    forall i | 0 <= i < |cs| ensures CommandOk(edited[i]) && (IsLinux(edited[i]) <==> IsLinux(cs[i])) {
      assert CommandOk(cs[i]);
      EditedCommand(cs[i], parameter);
    }
    PutKeepsMenu(m, title, edited);
    PrintedMenuReadsBack(m.Put(title, edited));
  }

  lemma EditedCommand(c: string, parameter: string)
    requires CommandOk(c) && parameter != [] && Trimmed(parameter) && OneLine(parameter)
    ensures CommandOk(Edited(c, parameter)) && (IsLinux(Edited(c, parameter)) <==> IsLinux(c))
  {
    if IsLinux(c) {
      var e := c + " " + parameter;
      assert e == c + (" " + parameter);
      FirstWordStays(c, " " + parameter);
      assert OneLine(e) by {
        forall i | 0 <= i < |e| ensures !IsBreak(e[i]) {
          if i > |c| {
            assert e[i] == parameter[i - |c| - 1];
          }
        }
      }
    }
  }
}
