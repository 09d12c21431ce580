/** GRUB's menu as bytes on the console: waiting for "*" and a title there is
    what `Menu.FirstShown` says of the rows drawn. */
module MenuText {
  import opened Common
  import opened Search
  import QemuVm
  import Menu

  const STAR: byte := 42
  const BLANK: byte := 32

  /** A title as the menu pattern leaves it: no star, no two blanks together, no
      blank at the end. */
  ghost predicate TitleOk(t: Bytes) {
    && STAR !in t
    && (forall i :: 0 <= i < |t| - 1 ==> !(t[i] == BLANK && t[i + 1] == BLANK))
    && (t != [] ==> t[|t| - 1] != BLANK)
  }

  /** A highlighted row as drawn: the star, the title, and what comes before the
      next star, two blanks first. */
  datatype Draw = Draw(row: nat, rest: Bytes)

  ghost predicate DrawOk(titles: seq<Bytes>, d: Draw) {
    && d.row < |titles|
    && |d.rest| >= 2 && d.rest[0] == BLANK && d.rest[1] == BLANK && STAR !in d.rest
  }

  ghost predicate DrawsOk(titles: seq<Bytes>, draws: seq<Draw>) {
    && (forall t :: t in titles ==> TitleOk(t))
    && forall i :: 0 <= i < |draws| ==> DrawOk(titles, draws[i])
  }

  /** The console text: what was left before the first star, then the draws. */
  function Render(titles: seq<Bytes>, before: Bytes, draws: seq<Draw>): Bytes
    requires forall i :: 0 <= i < |draws| ==> draws[i].row < |titles|
    decreases |draws|
  {
    if draws == [] then before
    else before + ([STAR] + Render(titles, titles[draws[0].row] + draws[0].rest, draws[1..]))
  }

  function Rows(draws: seq<Draw>): seq<nat> {
    seq(|draws|, i requires 0 <= i < |draws| => draws[i].row)
  }

  lemma {:induction false} FindSkips(before: Bytes, s: Bytes, needle: Bytes)
    requires needle != [] && needle[0] !in before
    ensures Find(before + s, needle, 0) ==
            match Find(s, needle, 0) case Some(at) => Some(|before| + at) case None => None
    decreases |before|
  {
    if before == [] {
      assert before + s == s;
    } else {
      var all := before + s;
      FindSkips(before[1..], s, needle);
      assert all[1..] == before[1..] + s;
      QemuVm.FindShift(all, needle, 1, 0);
      if |needle| <= |all| {
        assert all[0..|needle|][0] == before[0];
      }
    }
  }

  /** At a star, the row's title decides whether `expected` follows. */
  lemma StarShows(title: Bytes, rest: Bytes, more: Bytes, expected: Bytes)
    requires TitleOk(title) && TitleOk(expected)
    requires |rest| >= 2 && rest[0] == BLANK && rest[1] == BLANK
    ensures expected <= title + rest + more <==> expected <= title
  {
    var s := title + rest + more;
    assert s[|title|] == BLANK && s[|title| + 1] == BLANK;
    assert s[..|title|] == title;
  }

  lemma {:induction false} RenderStarts(titles: seq<Bytes>, before: Bytes, draws: seq<Draw>)
    requires forall i :: 0 <= i < |draws| ==> draws[i].row < |titles|
    ensures before <= Render(titles, before, draws)
  {
  }

  lemma {:induction false} NoStarNoFind(s: Bytes, needle: Bytes)
    requires needle != [] && needle[0] !in s
    ensures Find(s, needle, 0) == None
  {
    forall i: nat ensures !OccursAt(s, needle, i) {
      if i + |needle| <= |s| {
        assert s[i..i + |needle|][0] == s[i];
      }
    }
    FindIsFirst(s, needle, 0);
  }

  /** Where the wait for a star and `expected` ends: right behind the title of the
      first draw that shows it. The text left over, `left` before its first star,
      is the later draws'. */
  lemma {:induction false} FindStar(titles: seq<Bytes>, before: Bytes, draws: seq<Draw>, expected: Bytes)
    returns (left: Bytes)
    requires DrawsOk(titles, draws) && TitleOk(expected) && STAR !in before
    ensures STAR !in left
    ensures var text := Render(titles, before, draws);
            match Menu.FirstShown(titles, Rows(draws), expected)
            case None => Find(text, [STAR] + expected, 0) == None
            case Some(i) =>
              && Find(text, [STAR] + expected, 0).Some?
              && var end := Find(text, [STAR] + expected, 0).value + 1 + |expected|;
              text[end..] == Render(titles, left, draws[i + 1..])
    decreases |draws|
  {
    hide TitleOk, Find, Rows;
    left := [];
    var needle := [STAR] + expected;
    if draws == [] {
      NoStarNoFind(before, needle);
      NoRows();
    } else {
      var title, rest, tail := titles[draws[0].row], draws[0].rest, draws[1..];
      assert DrawOk(titles, draws[0]) && title in titles;
      var inner := Render(titles, title + rest, tail);
      var text := Render(titles, before, draws);
      FindSkips(before, [STAR] + inner, needle);
      StarAtHead(titles, draws, expected);
      RowsCons(draws);
      if expected <= title {
        left := title[|expected|..] + rest;
        NoStarIn(title);
        CutTitle(titles, title, rest, tail, |expected|);
        Behind(before, inner, |expected|);
      } else {
        NoStarIn(title);
        left := FindStar(titles, title + rest, tail, expected);
        InnerFind(inner, needle);
        if Menu.FirstShown(titles, Rows(tail), expected).Some? {
          var i := Menu.FirstShown(titles, Rows(tail), expected).value;
          var at := Find(inner, needle, 0).value;
          Behind(before, inner, at + 1 + |expected|);
          assert tail[i + 1..] == draws[i + 2..];
        }
      }
    }
  }

  lemma NoRows()
    ensures Rows([]) == []
  {
  }

  lemma RowsCons(draws: seq<Draw>)
    requires draws != []
    ensures Rows(draws) == [draws[0].row] + Rows(draws[1..])
    ensures Rows(draws)[1..] == Rows(draws[1..]) && |Rows(draws)| == |draws|
  {
  }

  lemma Behind(before: Bytes, inner: Bytes, k: nat)
    requires k <= |inner|
    ensures (before + ([STAR] + inner))[|before| + 1 + k..] == inner[k..]
  {
  }

  lemma NoStarIn(title: Bytes)
    requires TitleOk(title)
    ensures STAR !in title
  {
  }

  lemma InnerFind(inner: Bytes, needle: Bytes)
    ensures Find([STAR] + inner, needle, 1) ==
            match Find(inner, needle, 0) case Some(at) => Some(1 + at) case None => None
  {
    assert ([STAR] + inner)[1..] == inner;
    QemuVm.FindShift([STAR] + inner, needle, 1, 0);
  }

  /** The needle stands at the star that opens the draws exactly when the first of
      them shows it. */
  lemma StarAtHead(titles: seq<Bytes>, draws: seq<Draw>, expected: Bytes)
    requires draws != [] && DrawsOk(titles, draws) && TitleOk(expected)
    ensures var s := [STAR] + Render(titles, titles[draws[0].row] + draws[0].rest, draws[1..]);
            && (expected <= titles[draws[0].row] ==> Find(s, [STAR] + expected, 0) == Some(0))
            && (!(expected <= titles[draws[0].row]) ==> Find(s, [STAR] + expected, 0) == Find(s,
                [STAR] + expected, 1))
  {
    var title, rest := titles[draws[0].row], draws[0].rest;
    assert DrawOk(titles, draws[0]) && title in titles;
    var inner := Render(titles, title + rest, draws[1..]);
    RenderStarts(titles, title + rest, draws[1..]);
    var more := inner[|title + rest|..];
    assert inner == title + rest + more;
    StarShows(title, rest, more, expected);
    var s, needle := [STAR] + inner, [STAR] + expected;
    if |needle| <= |s| {
      assert s[0..|needle|] == [STAR] + inner[..|expected|];
      assert s[0..|needle|] == needle <==> inner[..|expected|] == expected by {
        assert ([STAR] + inner[..|expected|])[1..] == inner[..|expected|];
        assert needle[1..] == expected;
      }
    }
  }

  lemma CutTitle(titles: seq<Bytes>, title: Bytes, rest: Bytes, draws: seq<Draw>, n: nat)
    requires n <= |title| && forall i :: 0 <= i < |draws| ==> draws[i].row < |titles|
    ensures |Render(titles, title + rest, draws)| >= n
    ensures Render(titles, title + rest, draws)[n..] == Render(titles, title[n..] + rest, draws)
  {
    var more := if draws == [] then [] else [STAR] + Render(titles, titles[draws[0].row] + draws[0].rest, draws[1..]);
    assert Render(titles, title + rest, draws) == title + rest + more;
    assert (title + rest + more)[n..] == title[n..] + rest + more;
  }
}
