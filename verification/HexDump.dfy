/** Bytes out of a hex dump that shares the console with the hypervisor. */
module HexDump {
  import opened Common
  import opened Text

  const XEN: string := "(XEN)"

  /** `s` from its first newline on. */
  function AfterLine(s: string): (r: string)
    ensures |r| <= |s|
  {
    if s == [] || s[0] == '\n' then s else AfterLine(s[1..])
  }

  /** Every "(XEN)" gone with what follows it on its line. */
  function DropXenLines(s: string): string
    decreases |s|
  {
    if s == [] then []
    else if XEN <= s then DropXenLines(AfterLine(s[5..]))
    else [s[0]] + DropXenLines(s[1..])
  }

  function DropSpaces(s: string): string {
    if s == [] then []
    else if IsSpace(s[0]) then DropSpaces(s[1..])
    else [s[0]] + DropSpaces(s[1..])
  }

  /** `None` stands for the ValueError. */
  function Decode(out: string): Option<Bytes> {
    FromHex(DropSpaces(DropXenLines(out)))
  }

  // --- what a dump looks like on the console ------------------------------------

  datatype Piece =
    | Digit(c: char)
    | Gap(c: char)
    | XenLine(text: string)
    | Junk(c: char)  // no digit, no gap, and no start of a hypervisor line

  ghost predicate PieceOk(p: Piece) {
    match p
    case Digit(c) => DigitValue(c).Some?
    case Gap(c) => IsSpace(c)
    case XenLine(text) => '\n' !in text
    case Junk(c) => DigitValue(c).None? && !IsSpace(c) && c != '('
  }

  ghost predicate TextOk(ps: seq<Piece>) {
    forall p :: p in ps ==> PieceOk(p)
  }

  ghost predicate Clean(ps: seq<Piece>) {
    forall i :: 0 <= i < |ps| ==> !ps[i].Junk?
  }

  /** A dump: digits, gaps and hypervisor lines. */
  ghost predicate PiecesOk(ps: seq<Piece>) {
    TextOk(ps) && Clean(ps)
  }

  function PrintOne(p: Piece): string {
    match p
    case Digit(c) => [c]
    case Gap(c) => [c]
    case XenLine(text) => "(XEN)" + text + "\n"
    case Junk(c) => [c]
  }

  function Print(ps: seq<Piece>): string {
    if ps == [] then [] else PrintOne(ps[0]) + Print(ps[1..])
  }

  /** The digits alone, in order. */
  function Digits(ps: seq<Piece>): string {
    if ps == [] then []
    else if ps[0].Digit? then [ps[0].c] + Digits(ps[1..])
    else Digits(ps[1..])
  }

  lemma {:induction false} AfterLineOf(text: string, rest: string)
    requires '\n' !in text
    ensures AfterLine(text + ("\n" + rest)) == "\n" + rest
  {
    if text == [] {
      assert text + ("\n" + rest) == "\n" + rest;
    } else {
      assert (text + ("\n" + rest))[1..] == text[1..] + ("\n" + rest);
      AfterLineOf(text[1..], rest);
    }
  }

  lemma DropOne(c: char, rest: string)
    requires c != '('
    ensures DropXenLines([c] + rest) == [c] + DropXenLines(rest)
  {
    assert ([c] + rest)[1..] == rest;
  }

  lemma DropLine(text: string, rest: string)
    requires '\n' !in text
    ensures DropXenLines(XEN + text + "\n" + rest) == "\n" + DropXenLines(rest)
  {
    var s := XEN + text + "\n" + rest;
    assert s[5..] == text + ("\n" + rest);
    AfterLineOf(text, rest);
    DropOne('\n', rest);
  }

  /** What of a text stays: its digits and its junk. */
  function Stays(ps: seq<Piece>): string {
    if ps == [] then []
    else if ps[0].Digit? || ps[0].Junk? then [ps[0].c] + Stays(ps[1..])
    else Stays(ps[1..])
  }

  lemma {:induction false} PrintedStays(ps: seq<Piece>)
    requires TextOk(ps)
    ensures DropSpaces(DropXenLines(Print(ps))) == Stays(ps)
  {
    if ps != [] {
      var rest := Print(ps[1..]);
      assert PieceOk(ps[0]);
      PrintedStays(ps[1..]);
      if ps[0].XenLine? {
        DropLine(ps[0].text, rest);
        assert ("\n" + DropXenLines(rest))[1..] == DropXenLines(rest);
      } else {
        DropOne(ps[0].c, rest);
        assert ([ps[0].c] + DropXenLines(rest))[1..] == DropXenLines(rest);
      }
    }
  }

  lemma {:induction false} CleanStays(ps: seq<Piece>)
    requires TextOk(ps)
    ensures Clean(ps) ==> Stays(ps) == Digits(ps)
    ensures AllHex(Stays(ps)) <==> Clean(ps)
  {
    if ps != [] {
      var rest := ps[1..];
      assert PieceOk(ps[0]);
      CleanStays(rest);
      assert Clean(ps) <==> !ps[0].Junk? && Clean(rest) by {
        assert forall i :: 0 < i < |ps| ==> ps[i] == rest[i - 1];
      }
      if ps[0].Digit? || ps[0].Junk? {
        AllHexCons(ps[0].c, Stays(rest));
      }
    }
  }

  lemma AllHexCons(c: char, s: string)
    ensures AllHex([c] + s) <==> DigitValue(c).Some? && AllHex(s)
  {
    if AllHex([c] + s) {
      assert ([c] + s)[0] == c;
      forall i | 0 <= i < |s| ensures DigitValue(s[i]).Some? {
        assert ([c] + s)[i + 1] == s[i];
      }
    }
  }

  /** White space and hypervisor lines anywhere in a dump, inside a byte too,
      change nothing: it decodes as its digits alone. */
  lemma SplicedDump(ps: seq<Piece>)
    requires PiecesOk(ps)
    ensures Decode(Print(ps)) == FromHex(Digits(ps))
  {
    PrintedStays(ps);
    CleanStays(ps);
  }

  /** Anything else raises: a text decodes exactly when it has no junk and its
      digits pair up, and then to the bytes they spell. */
  lemma JunkRaises(ps: seq<Piece>)
    requires TextOk(ps)
    ensures Decode(Print(ps)).Some? <==> Clean(ps) && |Digits(ps)| % 2 == 0
    ensures Decode(Print(ps)).Some? ==> Spells(Digits(ps), Decode(Print(ps)).value)
  {
    PrintedStays(ps);
    CleanStays(ps);
    NoSpacesLeft(DropXenLines(Print(ps)));
    FromHexAccepts(Stays(ps));
    if FromHex(Stays(ps)).Some? {
      FromHexSpells(Stays(ps));
    }
  }

  lemma DumpCons(p: Piece, ps: seq<Piece>)
    requires PieceOk(p) && !p.Junk? && PiecesOk(ps)
    ensures PiecesOk([p] + ps) && Print([p] + ps) == PrintOne(p) + Print(ps)
  {
    assert ([p] + ps)[1..] == ps;
  }

  lemma TailIsHex(out: string)
    requires out != [] && !(XEN <= out) && AllHex(DropSpaces(DropXenLines(out)))
    ensures AllHex(DropSpaces(DropXenLines(out[1..])))
    ensures IsSpace(out[0]) || DigitValue(out[0]).Some?
  {
    hide AllHex, DigitValue, IsSpace;
    var left := DropXenLines(out[1..]);
    assert DropXenLines(out) == [out[0]] + left && ([out[0]] + left)[1..] == left;
    if !IsSpace(out[0]) {
      AllHexCons(out[0], DropSpaces(left));
    }
  }

  lemma LineTailIsHex(out: string)
    requires XEN <= out && AllHex(DropSpaces(DropXenLines(out))) && AfterLine(out[5..]) != []
    ensures AllHex(DropSpaces(DropXenLines(AfterLine(out[5..])[1..])))
  {
    hide AllHex;
    var after := AfterLine(out[5..]);
    UpToLine(out[5..]);
    assert after == "\n" + after[1..];
    DropOne('\n', after[1..]);
    assert ("\n" + DropXenLines(after[1..]))[1..] == DropXenLines(after[1..]);
  }

  /** Every text that decodes is a dump, the newline of its last line perhaps missing. */
  lemma {:induction false} DecodedIsDump(out: string) returns (ps: seq<Piece>)
    requires AllHex(DropSpaces(DropXenLines(out)))
    ensures PiecesOk(ps) && (Print(ps) == out || Print(ps) == out + "\n")
    decreases |out|
  {
    hide AllHex, DropSpaces, DropXenLines, AfterLine, DigitValue, IsSpace, PiecesOk, Print;
    if out == [] {
      ps := [];
      NoPieces();
    } else if XEN <= out {
      var after := AfterLine(out[5..]);
      var text := out[5..|out| - |after|];
      UpToLine(out[5..]);
      assert text == out[5..][..|out[5..]| - |after|];
      if after == [] {
        NoPieces();
        DumpCons(XenLine(text), []);
        ps := [XenLine(text)] + [];
        assert out == "(XEN)" + text;
        assert PrintOne(XenLine(text)) + [] == out + "\n";
      } else {
        LineTailIsHex(out);
        var more := DecodedIsDump(after[1..]);
        DumpCons(XenLine(text), more);
        ps := [XenLine(text)] + more;
        assert out == "(XEN)" + text + "\n" + after[1..];
        assert "(XEN)" + text + "\n" + (after[1..] + "\n") == out + "\n";
      }
    } else {
      TailIsHex(out);
      var more := DecodedIsDump(out[1..]);
      var p := if IsSpace(out[0]) then Gap(out[0]) else Digit(out[0]);
      DumpCons(p, more);
      ps := [p] + more;
      assert out == [out[0]] + out[1..];
      assert [out[0]] + (out[1..] + "\n") == out + "\n";
    }
  }

  lemma NoPieces()
    ensures PiecesOk([]) && Print([]) == []
  {
  }

  lemma {:induction false} UpToLine(s: string)
    ensures '\n' !in s[..|s| - |AfterLine(s)|]
    ensures s == s[..|s| - |AfterLine(s)|] + AfterLine(s)
    ensures AfterLine(s) != [] ==> AfterLine(s)[0] == '\n'
  {
    if s != [] && s[0] != '\n' {
      UpToLine(s[1..]);
      var n := |s| - |AfterLine(s)|;
      assert s[..n] == [s[0]] + s[1..][..n - 1];
    }
  }

  // --- what the digits have to be ------------------------------------------------

  ghost predicate AllHex(s: string) {
    forall i :: 0 <= i < |s| ==> DigitValue(s[i]).Some?
  }

  ghost predicate Pair(s: string, i: nat, value: int) {
    && 2 * i + 1 < |s|
    && DigitValue(s[2 * i]).Some? && DigitValue(s[2 * i + 1]).Some?
    && value == 16 * DigitValue(s[2 * i]).value + DigitValue(s[2 * i + 1]).value
  }

  /** `b` is what the digit pairs of `s` spell, in order. */
  ghost predicate Spells(s: string, b: Bytes) {
    |s| == 2 * |b| && forall i :: 0 <= i < |b| ==> Pair(s, i, b[i])
  }

  ghost predicate NoSpaces(s: string) {
    forall i :: 0 <= i < |s| ==> !IsSpace(s[i])
  }

  lemma {:induction false} FromHexAccepts(s: string)
    requires NoSpaces(s)
    ensures FromHex(s).Some? <==> AllHex(s) && |s| % 2 == 0
    decreases |s|
  {
    if |s| >= 2 {
      assert s[2..] == s[1..][1..];
      FromHexAccepts(s[2..]);
      assert AllHex(s) <==> DigitValue(s[0]).Some? && DigitValue(s[1]).Some? && AllHex(s[2..]) by {
        assert forall i :: 2 <= i < |s| ==> s[i] == s[2..][i - 2];
      }
    }
  }

  lemma ShiftPair(s: string, i: nat, value: int)
    requires 2 <= |s| && i > 0 && Pair(s[2..], i - 1, value)
    ensures Pair(s, i, value)
  {
  }

  lemma {:induction false} FromHexSpells(s: string)
    requires NoSpaces(s) && FromHex(s).Some?
    ensures Spells(s, FromHex(s).value)
    decreases |s|
  {
    if s != [] {
      var rest := s[2..];
      FromHexSpells(rest);
      var b, c := FromHex(s).value, FromHex(rest).value;
      assert |c| + 1 == |b| && Pair(s, 0, b[0]);
      forall i | 0 <= i < |b| ensures Pair(s, i, b[i]) {
        if i > 0 {
          assert b[i] == c[i - 1];
          ShiftPair(s, i, b[i]);
        }
      }
    }
  }

  lemma {:induction false} NoSpacesLeft(s: string)
    ensures NoSpaces(DropSpaces(s))
  {
    if s != [] {
      NoSpacesLeft(s[1..]);
    }
  }

  lemma {:induction false} LastNewline(out: string)
    ensures DropSpaces(DropXenLines(out + "\n")) == DropSpaces(DropXenLines(out))
    decreases |out|
  {
    if out == [] {
      assert [] + "\n" == "\n";
      DropOne('\n', []);
      assert "\n"[1..] == [] && "\n" + [] == "\n";
    } else if XEN <= out {
      assert (out + "\n")[5..] == out[5..] + "\n";
      LineThenNewline(out[5..]);
      if AfterLine(out[5..]) == [] {
        DropOne('\n', []);
        assert [] + "\n" == "\n" && "\n"[1..] == [] && "\n" + [] == "\n";
      } else {
        LastNewline(AfterLine(out[5..]));
      }
    } else {
      assert (out + "\n")[1..] == out[1..] + "\n";
      NoLineBegins(out);
      LastNewline(out[1..]);
      var a, b := DropXenLines(out[1..] + "\n"), DropXenLines(out[1..]);
      assert ([out[0]] + a)[1..] == a && ([out[0]] + b)[1..] == b;
    }
  }

  lemma NoLineBegins(out: string)
    requires !(XEN <= out)
    ensures !(XEN <= out + "\n")
  {
    if |out| >= 5 {
      assert (out + "\n")[..5] == out[..5];
    } else if |out| == 4 {
      assert (out + "\n")[4] == '\n';
    }
  }

  lemma {:induction false} LineThenNewline(s: string)
    ensures AfterLine(s + "\n") == AfterLine(s) + "\n"
  {
    if s == [] {
      assert s + "\n" == "\n";
    } else if s[0] != '\n' {
      assert (s + "\n")[1..] == s[1..] + "\n";
      LineThenNewline(s[1..]);
    }
  }

  /** Any text: it decodes to `b` exactly when it is a dump, the newline of its last
      line perhaps missing, whose digits spell `b`. */
  lemma DecodesIff(out: string, b: Bytes)
    ensures Decode(out) == Some(b) <==>
            exists ps :: PiecesOk(ps) && (Print(ps) == out || Print(ps) == out + "\n") && Spells(Digits(ps), b)
  {
    hide FromHex, DropSpaces, DropXenLines, Spells;
    LastNewline(out);
    DecodesExactlyHex(out);
    if Decode(out) == Some(b) {
      var ps := DecodedIsDump(out);
      JunkRaises(ps);
    }
    if ps :| PiecesOk(ps) && (Print(ps) == out || Print(ps) == out + "\n") && Spells(Digits(ps), b) {
      SpellsEven(Digits(ps), b);
      JunkRaises(ps);
      SpellsOne(Digits(ps), b, Decode(Print(ps)).value);
    }
  }

  lemma SpellsEven(s: string, b: Bytes)
    requires Spells(s, b)
    ensures |s| % 2 == 0
  {
  }

  lemma SpellsOne(s: string, a: Bytes, b: Bytes)
    requires Spells(s, a) && Spells(s, b)
    ensures a == b
  {
    forall i | 0 <= i < |a| ensures a[i] == b[i] {
      assert Pair(s, i, a[i]) && Pair(s, i, b[i]);
    }
  }

  /** A dump decodes exactly when what is left of it is pairs of hex digits. */
  lemma DecodesExactlyHex(out: string)
    ensures var s := DropSpaces(DropXenLines(out));
            && (Decode(out).Some? <==> AllHex(s) && |s| % 2 == 0)
            && (Decode(out).Some? ==> Spells(s, Decode(out).value))
  {
    var s := DropSpaces(DropXenLines(out));
    NoSpacesLeft(DropXenLines(out));
    FromHexAccepts(s);
    if FromHex(s).Some? {
      FromHexSpells(s);
    }
  }
}
