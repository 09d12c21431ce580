/** What a `grub.cfg` says, told as the document it is: which texts have which
    entries, and what a linux command is. */
module GrubText {
  import opened Common
  import opened Text
  import opened GrubCfg

  // --- lines ---------------------------------------------------------------------------------------

  lemma Breaks(c: char)
    ensures IsBreak(c) <==> c in {'\n', '\U{0b}', '\U{0c}', '\r', '\U{1c}', '\U{1d}', '\U{1e}'}
  {
  }

  /** What ends a line: a break, or a carriage return and a newline together. */
  ghost predicate IsEnd(e: string) {
    e == "\r\n" || (|e| == 1 && IsBreak(e[0]))
  }

  /** `s` is `lines`, each with its own of `ends` behind it; only the last may have
      none, and then it is not empty. */
  ghost predicate Broken(s: string, lines: seq<string>, ends: seq<string>)
    decreases |lines|
  {
    if lines == [] then s == [] && ends == []
    else
      && ends != [] && OneLine(lines[0]) && lines[0] + ends[0] <= s
      && var rest := s[|lines[0]| + |ends[0]|..];
         && (if ends[0] == [] then lines[0] != [] && rest == [] else IsEnd(ends[0]))
         && (ends[0] == "\r" ==> !("\n" <= rest))
         && Broken(rest, lines[1..], ends[1..])
  }

  lemma {:induction false} LineLengthIs(s: string, n: nat)
    requires n <= |s| && OneLine(s[..n]) && (n < |s| ==> IsBreak(s[n]))
    ensures LineLength(s) == n
  {
    if n > 0 {
      assert s[..n][0] == s[0];
      assert s[1..][..n - 1] == s[..n][1..];
      LineLengthIs(s[1..], n - 1);
    }
  }

  /** How much breaks the line that ends at `n`. */
  function EndLength(s: string, n: nat): (k: nat)
    requires n <= |s|
    ensures n + k <= |s|
  {
    if n == |s| then 0 else if s[n] == '\r' && n + 1 < |s| && s[n + 1] == '\n' then 2 else 1
  }

  lemma SplitOnce(s: string, n: nat)
    requires s != [] && n == LineLength(s)
    ensures SplitLines(s) == [s[..n]] + SplitLines(s[n + EndLength(s, n)..])
  {
    hide LineLength, OneLine, IsBreak;
    if n == |s| {
      assert s[..n] == s && s[n..] == [];
      NoText();
    } else if EndLength(s, n) == 2 {
      assert s[n] == '\r' && n + 1 < |s| && s[n + 1] == '\n';
    } else {
      assert !(s[n] == '\r' && n + 1 < |s| && s[n + 1] == '\n');
    }
  }

  lemma EndIs(s: string, n: nat, e: string)
    requires n + |e| <= |s| && s[n..n + |e|] == e
    requires if e == [] then n == |s| else IsEnd(e)
    requires e == "\r" ==> !("\n" <= s[n + 1..])
    ensures |e| == EndLength(s, n) && (n < |s| ==> IsBreak(s[n]))
  {
    if e != [] {
      assert s[n] == e[0];
      if |e| == 2 {
        assert s[n + 1] == e[1];
      } else if s[n] == '\r' && n + 1 < |s| {
        assert e == "\r";
        assert s[n + 1..][0] == s[n + 1];
      }
    }
  }

  lemma {:induction false} BrokenIsSplit(s: string, lines: seq<string>, ends: seq<string>)
    requires Broken(s, lines, ends)
    ensures SplitLines(s) == lines
    decreases |lines|
  {
    hide IsBreak, LineLength, SplitLines, IsEnd;
    if lines == [] {
      assert SplitLines([]) == [] by { NoText(); }
    } else {
      var n, e := |lines[0]|, ends[0];
      assert s[..n] == (lines[0] + e)[..n] == lines[0];
      assert s[n..n + |e|] == (lines[0] + e)[n..] == e;
      EndIs(s, n, e);
      LineLengthIs(s, n);
      SplitOnce(s, n);
      BrokenIsSplit(s[n + |e|..], lines[1..], ends[1..]);
    }
  }

  lemma NoText()
    ensures SplitLines([]) == []
  {
  }

  lemma {:induction false} SplitIsBroken(s: string) returns (ends: seq<string>)
    ensures Broken(s, SplitLines(s), ends)
    decreases |s|
  {
    hide LineLength, SplitLines, IsBreak, IsEnd;
    ends := [];
    if s == [] {
      NoText();
    } else {
      var n := LineLength(s);
      var k := EndLength(s, n);
      var e := s[n..n + k];
      SplitOnce(s, n);
      EndOf(s, n);
      var rest := SplitIsBroken(s[n + k..]);
      ends := [e] + rest;
      assert ends[1..] == rest;
      assert s[..n] + e == s[..n + k];
      assert SplitLines(s)[1..] == SplitLines(s[n + k..]);
    }
  }

  lemma EndOf(s: string, n: nat)
    requires n <= |s| && (n < |s| ==> IsBreak(s[n]))
    ensures var k := EndLength(s, n);
            var e := s[n..n + k];
            && (if e == [] then n == |s| else IsEnd(e)) && (e == "\r" ==> !("\n" <= s[n + k..]))
  {
    var k := EndLength(s, n);
    if k == 2 {
      assert s[n..n + 2] == "\r\n";
    } else if k == 1 && n + 1 < |s| {
      assert s[n + 1..][0] == s[n + 1];
    }
  }

  // --- documents -----------------------------------------------------------------------------------

  /** A line within an entry: a command, or one that is dropped. */
  datatype Body = Kept(raw: string) | Dropped(raw: string)

  /** A line outside the entries, or an entry; the last may lack its brace. */
  datatype Part =
    | Outside(raw: string)
    | Entry(opening: string, title: string, body: seq<Body>, closing: Option<string>)

  ghost predicate Opens(line: string, title: string) {
    exists quote, before, after :: Matches(line, title, quote, before, after)
  }

  ghost predicate BodyOk(b: Body) {
    var line := Strip(b.raw);
    match b
    case Kept(_) => line != [] && line[0] != '#' && line != "}"
    case Dropped(_) => line == [] || line[0] == '#'
  }

  ghost predicate PartOk(p: Part) {
    match p
    case Outside(raw) => forall title :: !Opens(Strip(raw), title)
    case Entry(opening, title, body, closing) =>
      && Opens(Strip(opening), title) && (forall b :: b in body ==> BodyOk(b))
      && (closing.Some? ==> Strip(closing.value) == "}")
  }

  ghost predicate DocOk(parts: seq<Part>) {
    && (forall i :: 0 <= i < |parts| ==> PartOk(parts[i]))
    && forall i :: 0 <= i < |parts| - 1 && parts[i].Entry? ==> parts[i].closing.Some?
  }

  function BodyLines(body: seq<Body>): seq<string> {
    seq(|body|, i requires 0 <= i < |body| => body[i].raw)
  }

  function PartLines(p: Part): seq<string> {
    match p
    case Outside(raw) => [raw]
    case Entry(opening, _, body, closing) =>
      [opening] + BodyLines(body) + if closing.Some? then [closing.value] else []
  }

  function DocLines(parts: seq<Part>): seq<string> {
    if parts == [] then [] else PartLines(parts[0]) + DocLines(parts[1..])
  }

  /** The commands, trimmed, in order. */
  function CommandsOf(body: seq<Body>): seq<string> {
    if body == [] then []
    else (if body[0].Kept? then [Strip(body[0].raw)] else []) + CommandsOf(body[1..])
  }

  /** The entries by title; a later entry of a title takes the place of an earlier one. */
  function Meaning(found: Menu, parts: seq<Part>): Menu
    decreases |parts|
  {
    if parts == [] then found
    else match parts[0]
      case Outside(_) => Meaning(found, parts[1..])
      case Entry(_, title, body, _) => Meaning(found.Put(title, CommandsOf(body)), parts[1..])
  }

  lemma OpensIff(line: string, title: string)
    ensures EntryTitle(line) == Some(title) <==> Opens(line, title)
  {
    hide EntryTitle, Matches;
    if EntryTitle(line) == Some(title) {
      var quote, before, after := TitleGivesMatch(line);
    }
    if quote, before, after :| Matches(line, title, quote, before, after) {
      MatchGivesTitle(line, title, quote, before, after);
    }
  }

  lemma {:induction false} ReadConcat(p: Place, a: seq<string>, b: seq<string>)
    ensures ReadLines(p, a + b) == ReadLines(ReadLines(p, a), b)
    decreases |a|
  {
    hide ReadLine;
    if a == [] {
      assert a + b == b;
    } else {
      assert (a + b)[1..] == a[1..] + b;
      ReadConcat(ReadLine(p, a[0]), a[1..], b);
    }
  }

  lemma {:induction false} BodyIsRead(title: string, found: Menu, body: seq<Body>)
    requires title in found.vals && forall b :: b in body ==> BodyOk(b)
    ensures ReadLines(Place(Some(title), found), BodyLines(body)) ==
            Place(Some(title), found.Put(title, found.vals[title] + CommandsOf(body)))
    decreases |body|
  {
    hide Strip, EntryTitle;
    if body == [] {
      assert found.vals[title] + [] == found.vals[title];
      assert found.Put(title, found.vals[title]) == found;
    } else {
      assert BodyOk(body[0]);
      assert BodyLines(body)[1..] == BodyLines(body[1..]);
      if body[0].Kept? {
        var c := Strip(body[0].raw);
        var next := found.Put(title, found.vals[title] + [c]);
        BodyIsRead(title, next, body[1..]);
        assert found.vals[title] + [c] + CommandsOf(body[1..]) == found.vals[title] + CommandsOf(body);
        var all := found.vals[title] + CommandsOf(body);
        assert next.Put(title, all) == found.Put(title, all);
      } else {
        BodyIsRead(title, found, body[1..]);
        assert [] + CommandsOf(body[1..]) == CommandsOf(body[1..]);
      }
    }
  }

  lemma OneRead(p: Place, line: string)
    ensures ReadLines(p, [line]) == ReadLine(p, line)
  {
    assert [line][1..] == [];
  }

  lemma PartIsRead(found: Menu, p: Part)
    requires PartOk(p)
    ensures ReadLines(Place(None, found), PartLines(p)) ==
            if p.Outside? then Place(None, found)
            else Place(if p.closing.Some? then None else Some(p.title), found.Put(p.title, CommandsOf(p.body)))
  {
    hide ReadLines, EntryTitle, Opens, Strip;
    if p.Outside? {
      OneRead(Place(None, found), p.raw);
      if EntryTitle(Strip(p.raw)).Some? {
        OpensIff(Strip(p.raw), EntryTitle(Strip(p.raw)).value);
      }
    } else {
      var opening, title, body, closing := p.opening, p.title, p.body, p.closing;
      OpensIff(Strip(opening), title);
      var begun := found.Put(title, []);
      OneRead(Place(None, found), opening);
      ReadConcat(Place(None, found), [opening], BodyLines(body));
      BodyIsRead(title, begun, body);
      assert [] + CommandsOf(body) == CommandsOf(body);
      assert begun.Put(title, CommandsOf(body)) == found.Put(title, CommandsOf(body));
      ReadConcat(Place(None, found), [opening] + BodyLines(body), if closing.Some? then [closing.value] else []);
      if closing.Some? {
        OneRead(Place(Some(title), found.Put(title, CommandsOf(body))), closing.value);
      } else {
        assert PartLines(p) == [opening] + BodyLines(body);
      }
    }
  }

  lemma {:induction false} DocIsRead(found: Menu, parts: seq<Part>)
    requires DocOk(parts)
    ensures ReadLines(Place(None, found), DocLines(parts)).found == Meaning(found, parts)
    decreases |parts|
  {
    hide ReadLines, PartOk, PartLines, CommandsOf;
    if parts == [] {
      NoLines(found);
    } else {
      PartIsRead(found, parts[0]);
      ReadConcat(Place(None, found), PartLines(parts[0]), DocLines(parts[1..]));
      if parts[1..] == [] {
        assert PartLines(parts[0]) + [] == PartLines(parts[0]);
      } else {
        var next := if parts[0].Entry? then found.Put(parts[0].title, CommandsOf(parts[0].body)) else found;
        DocIsRead(next, parts[1..]);
      }
    }
  }

  lemma NoLines(found: Menu)
    ensures ReadLines(Place(None, found), []) == Place(None, found)
  {
  }

  /** The lines of an entry behind its opening, up to its brace. */
  lemma {:induction false} LinesAreBody(lines: seq<string>)
    returns (body: seq<Body>, closing: Option<string>, rest: seq<string>)
    ensures lines == BodyLines(body) + (if closing.Some? then [closing.value] else []) + rest
    ensures (forall b :: b in body ==> BodyOk(b)) && (closing.Some? ==> Strip(closing.value) == "}")
    ensures closing == None ==> rest == []
    decreases |lines|
  {
    hide Strip;
    if lines == [] {
      body, closing, rest := [], None, [];
    } else if Strip(lines[0]) == "}" {
      body, closing, rest := [], Some(lines[0]), lines[1..];
      assert lines == [lines[0]] + lines[1..];
    } else {
      var line := Strip(lines[0]);
      var b := if line != [] && line[0] != '#' then Kept(lines[0]) else Dropped(lines[0]);
      var more: seq<Body>;
      more, closing, rest := LinesAreBody(lines[1..]);
      body := [b] + more;
      assert BodyLines(body) == [lines[0]] + BodyLines(more);
      assert lines == [lines[0]] + lines[1..];
    }
  }

  lemma {:induction false} LinesAreDoc(lines: seq<string>) returns (parts: seq<Part>)
    ensures DocOk(parts) && DocLines(parts) == lines
    decreases |lines|
  {
    hide Strip, EntryTitle, Opens, BodyOk;
    parts := [];
    if lines != [] {
      var line := Strip(lines[0]);
      var p: Part, rest := Outside(lines[0]), lines[1..];
      forall title ensures EntryTitle(line) == Some(title) <==> Opens(line, title) {
        OpensIff(line, title);
      }
      if EntryTitle(line).Some? {
        var body, closing;
        body, closing, rest := LinesAreBody(lines[1..]);
        p := Entry(lines[0], EntryTitle(line).value, body, closing);
      }
      assert lines == [lines[0]] + lines[1..];
      assert PartOk(p) && lines == PartLines(p) + rest;
      var more := LinesAreDoc(rest);
      DocCons(p, more);
      parts := [p] + more;
    }
  }

  lemma DocCons(p: Part, more: seq<Part>)
    requires PartOk(p) && DocOk(more) && (p.Entry? && p.closing == None ==> DocLines(more) == [])
    ensures DocOk([p] + more) && DocLines([p] + more) == PartLines(p) + DocLines(more)
  {
    hide PartOk, PartLines;
    var parts := [p] + more;
    assert parts[1..] == more;
    if more != [] {
      PartHasLines(more[0]);
    }
  }

  lemma PartHasLines(p: Part)
    ensures PartLines(p) != []
  {
  }

  /** Any text: its entries are `m` exactly when it is the lines of a document that
      means `m`. */
  lemma EntriesIff(config: string, m: Menu)
    ensures EntriesOf(config) == m <==>
            exists lines, ends, parts ::
              && Broken(config, lines, ends) && DocOk(parts) && DocLines(parts) == lines
              && Meaning(EmptyDict(), parts) == m
  {
    hide Broken, DocOk, Meaning, ReadLines, DocLines, SplitLines;
    var ends := SplitIsBroken(config);
    var parts := LinesAreDoc(SplitLines(config));
    DocIsRead(EmptyDict(), parts);
    if lines, ends, parts :| Broken(config, lines, ends) && DocOk(parts) && DocLines(parts) == lines
                             && Meaning(EmptyDict(), parts) == m {
      BrokenIsSplit(config, lines, ends);
      DocIsRead(EmptyDict(), parts);
    }
  }

  // --- linux commands --------------------------------------------------------------------------------

  /** The first word of `c` is "linux". */
  ghost predicate Linux(c: string) {
    exists before, after :: c == before + ("linux" + after) && AllSpace(before) && (after != [] ==> IsSpace(after[0]))
  }

  lemma {:induction false} UntilSpaceIs(word: string, after: string)
    requires (forall i :: 0 <= i < |word| ==> !IsSpace(word[i])) && (after != [] ==> IsSpace(after[0]))
    ensures UntilSpace(word + after) == word
  {
    if word == [] {
      assert word + after == after;
    } else {
      assert (word + after)[1..] == word[1..] + after;
      UntilSpaceIs(word[1..], after);
      assert word == [word[0]] + word[1..];
    }
  }

  lemma {:induction false} UntilSpaceSplits(s: string)
    ensures UntilSpace(s) <= s
    ensures s[|UntilSpace(s)|..] != [] ==> IsSpace(s[|UntilSpace(s)|..][0])
  {
    if s != [] && !IsSpace(s[0]) {
      UntilSpaceSplits(s[1..]);
      var n := |UntilSpace(s[1..])|;
      assert s[..n + 1] == [s[0]] + s[1..][..n];
      assert s[n + 1..] == s[1..][n..];
    }
  }

  lemma IsLinuxIff(c: string)
    ensures IsLinux(c) <==> Linux(c)
  {
    hide LStrip, UntilSpace;
    if IsLinux(c) {
      var word := LStrip(c);
      LStripSplits(c);
      UntilSpaceSplits(word);
      var before, after := c[..|c| - |word|], word[5..];
      assert word == "linux" + after;
      assert c == before + ("linux" + after);
    }
    if before, after :| c == before + ("linux" + after) && AllSpace(before) && (after != [] ==> IsSpace(after[0])) {
      assert ("linux" + after)[0] == 'l';
      LStripSpaces(before, "linux" + after);
      UntilSpaceIs("linux", after);
    }
  }

  lemma IsBlankIff(c: string)
    ensures IsBlank(c) <==> AllSpace(c)
  {
    if IsBlank(c) {
      LStripSplits(c);
      assert c[..|c|] == c;
    }
    if AllSpace(c) {
      LStripSpaces(c, []);
      assert c + [] == c;
    }
  }

  /** The parameter goes to the end of the linux commands, and nothing else changes. */
  lemma EditedIff(c: string, parameter: string)
    ensures Edited(c, parameter) == if Linux(c) then c + " " + parameter else c
  {
    IsLinuxIff(c);
  }
}
