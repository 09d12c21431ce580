/** GRUB's menu behind a key channel that loses keys, and the driver that walks
    down it. */
module Menu {
  import opened Common

  // --- the menu's titles --------------------------------------------------------------------------

  /** The titles of one render, given what the pattern matched in it. */
  method MenuTitles(found: seq<Bytes>) returns (titles: seq<Bytes>)
    ensures titles == Dedup(found)
    ensures Distinct(titles) && forall t :: t in titles <==> t in found
  {
    titles := [];
    for i := 0 to |found|
      invariant titles == Dedup(found[..i])
    {
      assert found[..i + 1][..i] == found[..i];
      if found[i] !in titles {
        titles := titles + [found[i]];
      }
    }
    assert found[..|found|] == found;
    DedupMembers(found);
  }

  // --- GRUB ----------------------------------------------------------------------------------------

  /** What one Down does: it moves the highlight or is lost, and GRUB redraws the
      highlighted row so many times before and after. */
  datatype Key = Key(moves: bool, before: nat, after: nat)

  /** The menu as driven: the row GRUB highlights, the highlighted rows it drew
      that the driver has not read past, the keys sent. */
  datatype Grub = Grub(highlight: nat, unread: seq<nat>, keys: nat)

  function Repeat(row: nat, n: nat): seq<nat> {
    seq(n, _ => row)
  }

  /** A Down that moves draws the row it moves to, a lost one at most the old row. */
  function Press(rows: nat, env: nat -> Key, g: Grub): Grub {
    var k := env(g.keys);
    var drawn := g.unread + Repeat(g.highlight, k.before);
    if k.moves && g.highlight + 1 < rows
    then Grub(g.highlight + 1, drawn + Repeat(g.highlight + 1, 1 + k.after), g.keys + 1)
    else Grub(g.highlight, drawn + Repeat(g.highlight, k.after), g.keys + 1)
  }

  // --- the driver ----------------------------------------------------------------------------------

  /** Waiting for "*" and `expected`: a highlighted row whose title goes on from
      `expected` will do. */
  predicate Shows(titles: seq<Bytes>, row: nat, expected: Bytes) {
    row < |titles| && expected <= titles[row]
  }

  /** The first draw that shows `expected`. */
  function FirstShown(titles: seq<Bytes>, unread: seq<nat>, expected: Bytes): (r: Option<nat>)
    ensures r.Some? ==> r.value < |unread|
  {
    if unread == [] then None
    else if Shows(titles, unread[0], expected) then Some(0)
    else match FirstShown(titles, unread[1..], expected)
      case Some(i) => Some(i + 1)
      case None => None
  }

  /** One Down and the wait after it. */
  function Try(titles: seq<Bytes>, env: nat -> Key, g: Grub, expected: Bytes): (Grub, bool) {
    var pressed := Press(|titles|, env, g);
    match FirstShown(titles, pressed.unread, expected)
    case Some(i) => (pressed.(unread := pressed.unread[i + 1..]), true)
    case None => (pressed, false)
  }

  function MoveDownOf(titles: seq<Bytes>, env: nat -> Key, g: Grub, expected: Bytes): (Grub, bool) {
    var first := Try(titles, env, g, expected);
    if first.1 then first else Try(titles, env, first.0, expected)
  }

  /** From `step` down to `target`; false where the driver raises. */
  function WalkOf(titles: seq<Bytes>, env: nat -> Key, g: Grub, step: nat, target: nat): (Grub, bool)
    requires step <= target < |titles|
    decreases target - step
  {
    if step == target then (g, true)
    else
      var moved := MoveDownOf(titles, env, g, titles[step + 1]);
      if moved.1 then WalkOf(titles, env, moved.0, step + 1, target) else moved
  }

  datatype Selected =
    | Entered(row: nat)  // Enter was sent with this row highlighted
    | NoEntry            // LookupError
    | NotMoved           // RuntimeError

  /** The first index of `title`. */
  function IndexOf(titles: seq<Bytes>, title: Bytes): (i: nat)
    requires title in titles
    ensures i < |titles| && titles[i] == title && title !in titles[..i]
  {
    if titles[0] == title then 0 else 1 + IndexOf(titles[1..], title)
  }

  class Console {
    /** The titles GRUB lists, a row each, and what its keys do. */
    const titles: seq<Bytes>
    const env: nat -> Key

    var grub: Grub

    /** The rows that were highlighted when Enter was sent. */
    var entered: seq<nat>

    /** The menu has just been drawn, its first row highlighted. */
    constructor (titles: seq<Bytes>, env: nat -> Key, drawn: nat)
      ensures this.titles == titles && this.env == env
      ensures grub == Start(drawn) && entered == []
    {
      this.titles, this.env := titles, env;
      grub, entered := Start(drawn), [];
    }

    method SendDown()
      modifies `grub
      ensures grub == Press(|titles|, env, old(grub))
    {
      grub := Press(|titles|, env, grub);
    }

    /** False is the TimeoutError, which leaves the cursor where it was. */
    method Expect(expected: Bytes) returns (shown: bool)
      modifies `grub
      ensures match FirstShown(titles, old(grub).unread, expected)
              case Some(i) => shown && grub == old(grub).(unread := old(grub).unread[i + 1..])
              case None => !shown && grub == old(grub)
    {
      var i := FirstShown(titles, grub.unread, expected);
      shown := i.Some?;
      if i.Some? {
        grub := grub.(unread := grub.unread[i.value + 1..]);
      }
    }

    method MoveDown(expected: Bytes) returns (moved: bool)
      modifies `grub
      ensures (grub, moved) == MoveDownOf(titles, env, old(grub), expected)
    {
      for i := 0 to 2
        invariant i == 0 ==> grub == old(grub)
        invariant i > 0 ==> !Try(titles, env, old(grub), expected).1
        invariant i == 1 ==> grub == Try(titles, env, old(grub), expected).0
        invariant i == 2 ==> (grub, false) == MoveDownOf(titles, env, old(grub), expected)
      {
        SendDown();
        var shown := Expect(expected);
        if shown {
          return true;
        }
      }
      return false;
    }

    method SelectEntry(title: Bytes) returns (r: Selected)
      modifies `grub, `entered
      ensures title !in titles ==> r == NoEntry && grub == old(grub)
      ensures title in titles ==>
                var walk := WalkOf(titles, env, old(grub), 0, IndexOf(titles, title));
                grub == walk.0 && r == if walk.1 then Entered(walk.0.highlight) else NotMoved
      ensures entered == old(entered) + if r.Entered? then [r.row] else []
    {
      if title !in titles {
        return NoEntry;
      }
      var target := IndexOf(titles, title);
      for step := 0 to target
        invariant WalkOf(titles, env, old(grub), 0, target) == WalkOf(titles, env, grub, step, target)
        invariant entered == old(entered)
      {
        var moved := MoveDown(titles[step + 1]);
        if !moved {
          return NotMoved;
        }
      }
      entered := entered + [grub.highlight];
      return Entered(grub.highlight);
    }
  }

  /** The menu drawn `drawn` times with its first row highlighted. */
  function Start(drawn: nat): Grub {
    Grub(0, Repeat(0, drawn), 0)
  }

  // --- no overshooting -------------------------------------------------------------------------------

  /** No title is a prefix of the one above it. */
  ghost predicate NoPrefixAbove(titles: seq<Bytes>) {
    forall i :: 0 <= i < |titles| - 1 ==> !(titles[i + 1] <= titles[i])
  }

  /** The highlight is on `row` and every draw not read yet is of it. */
  ghost predicate InStep(g: Grub, row: nat) {
    g.highlight == row && forall i :: 0 <= i < |g.unread| ==> g.unread[i] == row
  }

  lemma InStepHighlight(g: Grub, row: nat)
    requires InStep(g, row)
    ensures g.highlight == row
  {
  }

  /** The draws of `row` all come before those of the row below. */
  lemma {:induction false} ShownBelow(titles: seq<Bytes>, unread: seq<nat>, row: nat, n: nat)
    requires row + 1 < |titles| && !(titles[row + 1] <= titles[row])
    requires forall i :: 0 <= i < |unread| ==> unread[i] == row
    ensures FirstShown(titles, unread, titles[row + 1]) == None
    ensures FirstShown(titles, unread + Repeat(row + 1, 1 + n), titles[row + 1]) == Some(|unread|)
    decreases |unread|
  {
    var all := unread + Repeat(row + 1, 1 + n);
    if unread == [] {
      assert all[0] == row + 1;
    } else {
      assert all[1..] == unread[1..] + Repeat(row + 1, 1 + n);
      ShownBelow(titles, unread[1..], row, n);
    }
  }

  /** In step, one try reaches the row below when its key moves and stays put,
      still in step, when the key is lost. */
  lemma TryInStep(titles: seq<Bytes>, env: nat -> Key, g: Grub, row: nat)
    requires row + 1 < |titles| && !(titles[row + 1] <= titles[row]) && InStep(g, row)
    ensures var t := Try(titles, env, g, titles[row + 1]);
            && t.0.keys == g.keys + 1
            && t.1 == env(g.keys).moves
            && InStep(t.0, if t.1 then row + 1 else row)
  {
    var k := env(g.keys);
    var drawn := g.unread + Repeat(row, k.before);
    ShownBelow(titles, drawn, row, k.after);
    ShownBelow(titles, drawn + Repeat(row, k.after), row, 0);
  }

  /** From a menu in step: Enter comes with the highlight on the target, after at
      most two keys a row; the driver raises exactly when two keys in a row are
      lost, the last two it sent. */
  lemma {:induction false} WalkInStep(titles: seq<Bytes>, env: nat -> Key, g: Grub, step: nat, target: nat)
    requires step <= target < |titles| && NoPrefixAbove(titles) && InStep(g, step)
    ensures var walk := WalkOf(titles, env, g, step, target);
            && walk.0.keys <= g.keys + 2 * (target - step)
            && (walk.1 ==> walk.0.highlight == target)
            && (!walk.1 ==> g.keys + 2 <= walk.0.keys && !env(walk.0.keys - 1).moves && !env(walk.0.keys - 2).moves)
    decreases target - step
  {
    hide Try, InStep;
    assert g.highlight == step by { InStepHighlight(g, step); }
    if step < target {
      TryInStep(titles, env, g, step);
      var first := Try(titles, env, g, titles[step + 1]);
      if !first.1 {
        TryInStep(titles, env, first.0, step);
      }
      var moved := MoveDownOf(titles, env, g, titles[step + 1]);
      if moved.1 {
        WalkInStep(titles, env, moved.0, step + 1, target);
      }
    }
  }

  /** Enter never goes out on another row than the one asked for. */
  ghost predicate NeverOvershoots(titles: seq<Bytes>) {
    forall env: nat -> Key, drawn: nat, target: nat :: target < |titles| ==>
      var walk := WalkOf(titles, env, Start(drawn), 0, target);
      walk.1 ==> walk.0.highlight == target
  }

  /** A key channel that loses the key for `row` alone, the menu redrawn then. */
  function LosesOne(row: nat): nat -> Key {
    (i: nat) => if i == row then Key(false, 1, 0) else Key(true, 0, 0)
  }

  lemma LosesOneTries(titles: seq<Bytes>, step: nat, row: nat)
    requires step <= row && row + 1 < |titles|
    requires step < row ==> !(titles[step + 1] <= titles[step])
    requires step == row ==> titles[row + 1] <= titles[row]
    ensures Try(titles, LosesOne(row), Grub(step, [], step), titles[step + 1]) ==
            (Grub(if step < row then step + 1 else row, [], step + 1), true)
  {
    var pressed := Press(|titles|, LosesOne(row), Grub(step, [], step));
    assert pressed.unread == [if step < row then step + 1 else row];
    assert FirstShown(titles, pressed.unread, titles[step + 1]) == Some(0);
    assert pressed.unread[1..] == [];
  }

  /** Every row above `row` is left with one key and nothing unread. */
  lemma {:induction false} WalkDownTo(titles: seq<Bytes>, step: nat, row: nat)
    requires step <= row && row + 1 < |titles|
    requires forall i :: 0 <= i < row ==> !(titles[i + 1] <= titles[i])
    requires titles[row + 1] <= titles[row]
    ensures var walk := WalkOf(titles, LosesOne(row), Grub(step, [], step), step, row + 1);
            walk.1 && walk.0.highlight == row
    decreases row - step
  {
    hide Try, LosesOne;
    LosesOneTries(titles, step, row);
    if step < row {
      WalkDownTo(titles, step + 1, row);
    } else {
      var g := Grub(row, [], row + 1);
      assert WalkOf(titles, LosesOne(row), g, row + 1, row + 1) == (g, true);
    }
  }

  lemma FirstPrefixAbove(titles: seq<Bytes>) returns (row: nat)
    requires !NoPrefixAbove(titles)
    ensures row + 1 < |titles| && titles[row + 1] <= titles[row]
    ensures forall i :: 0 <= i < row ==> !(titles[i + 1] <= titles[i])
  {
    row := 0;
    while !(row + 1 < |titles| && titles[row + 1] <= titles[row])
      invariant forall i :: 0 <= i < row && i + 1 < |titles| ==> !(titles[i + 1] <= titles[i])
      decreases |titles| - row
    {
      if row + 1 >= |titles| {
        assert false;
      }
      row := row + 1;
    }
  }

  /** Whatever keys are lost and whenever the menu is redrawn, the driver never
      overshoots, exactly when no title is a prefix of the title above it. */
  lemma NeverOvershootsIff(titles: seq<Bytes>)
    ensures NeverOvershoots(titles) <==> NoPrefixAbove(titles)
  {
    if NoPrefixAbove(titles) {
      forall env: nat -> Key, drawn: nat, target: nat | target < |titles|
        ensures var walk := WalkOf(titles, env, Start(drawn), 0, target);
                walk.1 ==> walk.0.highlight == target
      {
        WalkInStep(titles, env, Start(drawn), 0, target);
      }
    } else {
      var row := FirstPrefixAbove(titles);
      WalkDownTo(titles, 0, row);
      assert Start(0) == Grub(0, [], 0);
      var walk := WalkOf(titles, LosesOne(row), Start(0), 0, row + 1);
      assert walk.1 && walk.0.highlight != row + 1;
    }
  }
}
