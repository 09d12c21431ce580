/** ASCII text as Python's `str` methods see it, and hexadecimal. */
module Text {
  import opened Common

  /** What `str.strip` and the `\s` of `re` take for white space, in ASCII. */
  predicate IsSpace(c: char) {
    c == ' ' || '\t' <= c <= '\r' || '\U{1c}' <= c <= '\U{1f}'
  }

  lemma Spaces(c: char)
    ensures IsSpace(c) <==> c in {' ', '\t', '\n', '\U{0b}', '\U{0c}', '\r', '\U{1c}', '\U{1d}', '\U{1e}', '\U{1f}'}
  {
  }

  /** What `bytes.fromhex` skips between two bytes. */
  predicate IsHexGap(c: char) {
    c == ' ' || '\t' <= c <= '\r'
  }

  lemma HexGaps(c: char)
    ensures IsHexGap(c) <==> c in {' ', '\t', '\n', '\U{0b}', '\U{0c}', '\r'}
  {
  }

  predicate AllSpace(s: string) {
    forall i :: 0 <= i < |s| ==> IsSpace(s[i])
  }

  function LStrip(s: string): string {
    if s != [] && IsSpace(s[0]) then LStrip(s[1..]) else s
  }

  function RStrip(s: string): string {
    if s != [] && IsSpace(s[|s| - 1]) then RStrip(s[..|s| - 1]) else s
  }

  /** `str.strip()` */
  function Strip(s: string): string {
    RStrip(LStrip(s))
  }

  /** Nothing for `Strip` to take off either end. */
  predicate Trimmed(s: string) {
    s != [] ==> !IsSpace(s[0]) && !IsSpace(s[|s| - 1])
  }

  lemma AllSpaceCons(c: char, ws: string)
    requires IsSpace(c) && AllSpace(ws)
    ensures AllSpace([c] + ws)
  {
  }

  lemma {:induction false} LStripSplits(s: string)
    ensures |LStrip(s)| <= |s| && s == s[..|s| - |LStrip(s)|] + LStrip(s)
    ensures AllSpace(s[..|s| - |LStrip(s)|])
    ensures LStrip(s) != [] ==> !IsSpace(LStrip(s)[0])
  {
    hide AllSpace, IsSpace;
    if s == [] || !IsSpace(s[0]) {
      assert LStrip(s) == s && s[..0] == [] && [] + s == s;
      NoSpaces();
    } else {
      var rest := s[1..];
      LStripSplits(rest);
      var kept := LStrip(rest);
      var dropped := rest[..|rest| - |kept|];
      assert [s[0]] + rest == s;
      assert [s[0]] + (dropped + kept) == ([s[0]] + dropped) + kept;
      HeadOf([s[0]] + dropped, kept);
      AllSpaceCons(s[0], dropped);
    }
  }

  lemma HeadOf(head: string, tail: string)
    ensures (head + tail)[..|head + tail| - |tail|] == head
  {
  }

  lemma AllSpaceSnoc(ws: string, c: char)
    requires IsSpace(c) && AllSpace(ws)
    ensures AllSpace(ws + [c])
  {
  }

  lemma {:induction false} RStripSplits(s: string)
    ensures |RStrip(s)| <= |s| && s == RStrip(s) + s[|RStrip(s)|..]
    ensures AllSpace(s[|RStrip(s)|..])
    ensures RStrip(s) != [] ==> !IsSpace(RStrip(s)[|RStrip(s)| - 1])
  {
    hide AllSpace, IsSpace;
    if s == [] || !IsSpace(s[|s| - 1]) {
      assert RStrip(s) == s && s[|s|..] == [] && s + [] == s;
      NoSpaces();
    } else {
      var init, last := s[..|s| - 1], s[|s| - 1];
      RStripSplits(init);
      var kept := RStrip(init);
      var dropped := init[|kept|..] + [last];
      assert init + [last] == s;
      assert kept + init[|kept|..] + [last] == kept + dropped;
      TailOf(kept, dropped);
      AllSpaceSnoc(init[|kept|..], last);
    }
  }

  lemma NoSpaces()
    ensures AllSpace([])
  {
  }

  lemma TailOf(head: string, tail: string)
    ensures (head + tail)[|head|..] == tail
  {
  }

  lemma StripTrims(s: string)
    ensures Trimmed(Strip(s))
    ensures forall c :: c in Strip(s) ==> c in s
  {
    LStripSplits(s);
    RStripSplits(LStrip(s));
  }

  lemma {:induction false} LStripSpaces(ws: string, s: string)
    requires AllSpace(ws) && (s != [] ==> !IsSpace(s[0]))
    ensures LStrip(ws + s) == s
  {
    if ws == [] {
      assert ws + s == s;
    } else {
      assert (ws + s)[1..] == ws[1..] + s;
      LStripSpaces(ws[1..], s);
    }
  }

  lemma {:induction false} RStripSpaces(s: string, ws: string)
    requires AllSpace(ws) && (s != [] ==> !IsSpace(s[|s| - 1]))
    ensures RStrip(s + ws) == s
  {
    if ws == [] {
      assert s + ws == s;
    } else {
      assert (s + ws)[..|s + ws| - 1] == s + ws[..|ws| - 1];
      RStripSpaces(s, ws[..|ws| - 1]);
    }
  }

  lemma StripPadded(before: string, s: string, after: string)
    requires AllSpace(before) && AllSpace(after) && Trimmed(s)
    ensures Strip(before + s + after) == s
  {
    if s == [] {
      LStripSpaces(before + after, []);
      assert before + s + after == before + after + [];
    } else {
      assert before + s + after == before + (s + after);
      LStripSpaces(before, s + after);
      RStripSpaces(s, after);
    }
  }

  /** `sep.join(parts)` */
  function Join(sep: string, parts: seq<string>): string {
    if parts == [] then []
    else if |parts| == 1 then parts[0]
    else parts[0] + sep + Join(sep, parts[1..])
  }

  const DIGITS: string := "0123456789abcdef"

  function HexDigit(n: nat): char
    requires n < 16
  {
    DIGITS[n]
  }

  /** A hexadecimal digit of either case. */
  function DigitValue(c: char): Option<nat> {
    if '0' <= c <= '9' then Some(c as int - '0' as int)
    else if 'a' <= c <= 'f' then Some(c as int - 'a' as int + 10)
    else if 'A' <= c <= 'F' then Some(c as int - 'A' as int + 10)
    else None
  }

  lemma HexDigitRead(n: nat)
    requires n < 16
    ensures DigitValue(HexDigit(n)) == Some(n) && !IsSpace(HexDigit(n)) && !IsHexGap(HexDigit(n))
    ensures HexDigit(n) in "0123456789abcdef"
  {
    assert DIGITS[n] in {'0', '1', '2', '3', '4', '5', '6', '7', '8', '9', 'a', 'b', 'c', 'd', 'e', 'f'};
  }

  /** The digits of both cases, and nothing else, have a value. */
  lemma DigitValues()
    ensures DigitValue('0') == Some(0) && DigitValue('1') == Some(1) && DigitValue('2') == Some(2)
    ensures DigitValue('3') == Some(3) && DigitValue('4') == Some(4) && DigitValue('5') == Some(5)
    ensures DigitValue('6') == Some(6) && DigitValue('7') == Some(7) && DigitValue('8') == Some(8)
    ensures DigitValue('9') == Some(9) && DigitValue('a') == Some(10) && DigitValue('b') == Some(11)
    ensures DigitValue('c') == Some(12) && DigitValue('d') == Some(13) && DigitValue('e') == Some(14)
    ensures DigitValue('f') == Some(15) && DigitValue('A') == Some(10) && DigitValue('B') == Some(11)
    ensures DigitValue('C') == Some(12) && DigitValue('D') == Some(13) && DigitValue('E') == Some(14)
    ensures DigitValue('F') == Some(15)
    ensures forall c :: DigitValue(c).Some? ==> '0' <= c <= '9' || 'a' <= c <= 'f' || 'A' <= c <= 'F'
  {
  }

  /** `bytes.hex()` */
  function Hex(b: Bytes): string {
    if b == [] then []
    else [HexDigit(b[0] / 16), HexDigit(b[0] % 16)] + Hex(b[1..])
  }

  /** `bytes.fromhex(s)`, `None` where it raises: white space may stand
      between bytes, never inside one. */
  function FromHex(s: string): Option<Bytes> {
    if s == [] then Some([])
    else if IsHexGap(s[0]) then FromHex(s[1..])
    else if |s| < 2 then None
    else match (DigitValue(s[0]), DigitValue(s[1]), FromHex(s[2..]))
      case (Some(h), Some(l), Some(rest)) =>
        assert h < 16 && l < 16;
        Some([16 * h + l] + rest)
      case _ => None
  }

  lemma {:induction false} HexChars(b: Bytes)
    ensures |Hex(b)| == 2 * |b|
    ensures forall c :: c in Hex(b) ==> !IsSpace(c) && c in "0123456789abcdef"
  {
    hide HexDigit, IsSpace;
    if b != [] {
      HexDigitRead(b[0] / 16);
      HexDigitRead(b[0] % 16);
      HexChars(b[1..]);
    }
  }

  lemma {:induction false} HexRoundTrip(b: Bytes)
    ensures FromHex(Hex(b)) == Some(b) && |Hex(b)| == 2 * |b|
    ensures forall c :: c in Hex(b) ==> !IsSpace(c) && c in "0123456789abcdef"
  {
    HexChars(b);
    HexReads(b);
  }

  lemma FromHexTwo(h: char, l: char, s: string, b: byte)
    requires !IsHexGap(h) && DigitValue(h) == Some(b / 16) && DigitValue(l) == Some(b % 16)
    ensures FromHex([h, l] + s) == match FromHex(s) case Some(rest) => Some([b] + rest) case None => None
  {
    hide DigitValue, IsHexGap;
    assert ([h, l] + s)[2..] == s;
  }

  lemma {:induction false} HexReads(b: Bytes)
    ensures FromHex(Hex(b)) == Some(b)
  {
    hide DigitValue, HexDigit, IsHexGap, FromHex;
    if b == [] {
      assert FromHex([]) == Some([]) by { NothingRead(); }
    } else {
      HexDigitRead(b[0] / 16);
      HexDigitRead(b[0] % 16);
      HexReads(b[1..]);
      FromHexTwo(HexDigit(b[0] / 16), HexDigit(b[0] % 16), Hex(b[1..]), b[0]);
      assert b == [b[0]] + b[1..];
    }
  }

  lemma NothingRead()
    ensures FromHex([]) == Some([])
  {
  }

  lemma HexInjective(a: Bytes, b: Bytes)
    requires Hex(a) == Hex(b)
    ensures a == b
  {
    HexRoundTrip(a);
    HexRoundTrip(b);
  }

  /** The digits of `hex(n)`, after its `0x`. */
  function HexNat(n: nat): string {
    if n < 16 then [HexDigit(n)] else HexNat(n / 16) + [HexDigit(n % 16)]
  }

  function ValueOf(s: string): nat {
    if s == [] then 0
    else 16 * ValueOf(s[..|s| - 1]) + match DigitValue(s[|s| - 1]) case Some(d) => d case None => 0
  }

  /** They are lower-case and without a leading zero. */
  lemma {:induction false} HexNatDigits(n: nat)
    ensures forall c :: c in HexNat(n) ==> c in "0123456789abcdef"
    ensures HexNat(n) != [] && (n > 0 ==> HexNat(n)[0] != '0')
  {
    if n >= 16 {
      HexNatDigits(n / 16);
    }
  }

  lemma {:induction false} HexNatRead(n: nat)
    ensures ValueOf(HexNat(n)) == n
  {
    hide DigitValue, HexDigit;
    HexDigitRead(n % 16);
    if n < 16 {
      assert HexNat(n)[..0] == [];
    } else {
      HexNatRead(n / 16);
      assert HexNat(n)[..|HexNat(n)| - 1] == HexNat(n / 16);
    }
  }
}
