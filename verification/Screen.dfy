/** What printing means: characters laid out on an unbounded page of fixed
    width, of which the screen shows a window. */
module Screen {
  const COLS: nat := 100
  const ROWS: nat := 37

  const BACKSPACE: char := '\U{0008}'

  predicate Printable(c: char) { 32 <= c as int <= 127 }

  /** An unbounded page: the glyphs drawn so far, by row and column, and the
      cursor. */
  datatype Page = Page(cells: map<(nat, nat), char>, row: nat, col: nat)

  const EMPTY_PAGE := Page(map[], 0, 0)

  /** What a cell shows; an undrawn cell is as blank as one with a space. */
  function Shown(p: Page, row: nat, col: nat): char {
    if (row, col) in p.cells then p.cells[(row, col)] else ' '
  }

  function Next(p: Page): Page {
    if p.col + 1 < COLS then Page(p.cells, p.row, p.col + 1) else Page(p.cells, p.row + 1, 0)
  }

  function Back(p: Page): Page
    requires p.row > 0 || p.col > 0
  {
    if p.col > 0 then Page(p.cells, p.row, p.col - 1) else Page(p.cells, p.row - 1, COLS - 1)
  }

  function Draw(p: Page, c: char): Page {
    Page(p.cells[(p.row, p.col) := c], p.row, p.col)
  }

  /** One character. Backspace steps back, blanks the cell and stays there. */
  function Feed(p: Page, c: char): Page
    requires c == BACKSPACE ==> p.row > 0 || p.col > 0
  {
    if Printable(c) then Next(Draw(p, c))
    else if c == '\n' then Page(p.cells, p.row + 1, 0)
    else if c == '\t' then Next(Next(Next(p)))
    else if c == '\r' then Page(p.cells, p.row, 0)
    else if c == BACKSPACE then Draw(Back(p), ' ')
    else p
  }

  /** The first row in the window once a character is about to be printed. */
  function Scrolled(top: nat, row: nat): nat {
    if row == top + ROWS then top + 1 else top
  }

  /** No backspace is printed in the upper left corner of the window, where the
      kernel's 16-bit row would wrap. */
  ghost predicate Safe(p: Page, top: nat, s: string)
    decreases |s|
  {
    s == [] ||
    (!(s[0] == BACKSPACE && p.col == 0 && p.row <= top) && Safe(Feed(p, s[0]), Scrolled(top, p.row), s[1..]))
  }

  ghost function FeedAll(p: Page, top: nat, s: string): Page
    requires Safe(p, top, s)
    decreases |s|
  {
    if s == [] then p else FeedAll(Feed(p, s[0]), Scrolled(top, p.row), s[1..])
  }

  ghost function ScrollAll(p: Page, top: nat, s: string): nat
    requires Safe(p, top, s)
    decreases |s|
  {
    if s == [] then top else ScrollAll(Feed(p, s[0]), Scrolled(top, p.row), s[1..])
  }

  /** Text without backspace is always safe. */
  lemma {:induction false} NoBackspaceSafe(p: Page, top: nat, s: string)
    requires BACKSPACE !in s
    ensures Safe(p, top, s)
    decreases |s|
  {
    if s != [] {
      NoBackspaceSafe(Feed(p, s[0]), Scrolled(top, p.row), s[1..]);
    }
  }

  /** Printing a text is printing its parts one after the other. */
  lemma {:induction false} FeedConcat(p: Page, top: nat, s: string, u: string)
    requires Safe(p, top, s) && Safe(FeedAll(p, top, s), ScrollAll(p, top, s), u)
    ensures Safe(p, top, s + u)
    ensures FeedAll(p, top, s + u) == FeedAll(FeedAll(p, top, s), ScrollAll(p, top, s), u)
    ensures ScrollAll(p, top, s + u) == ScrollAll(FeedAll(p, top, s), ScrollAll(p, top, s), u)
    decreases |s|
  {
    if s == [] {
      assert s + u == u;
    } else {
      assert (s + u)[1..] == s[1..] + u;
      FeedConcat(Feed(p, s[0]), Scrolled(top, p.row), s[1..], u);
    }
  }

  /** The last character of a text is fed to what the others left. */
  lemma {:induction false} LastFed(p: Page, top: nat, s: string)
    requires s != [] && Safe(p, top, s)
    ensures var n := |s| - 1;
            && Safe(p, top, s[..n])
            && var q, t := FeedAll(p, top, s[..n]), ScrollAll(p, top, s[..n]);
               && !(s[n] == BACKSPACE && q.col == 0 && q.row <= t)
               && FeedAll(p, top, s) == Feed(q, s[n]) && ScrollAll(p, top, s) == Scrolled(t, q.row)
    decreases |s|
  {
    var n := |s| - 1;
    if n == 0 {
      assert s[..n] == [] && s[1..] == [];
    } else {
      assert s[..n][1..] == s[1..][..n - 1];
      LastFed(Feed(p, s[0]), Scrolled(top, p.row), s[1..]);
    }
  }

  /** A tab moves the cursor three columns on, into the next row at the end. */
  lemma TabMoves(p: Page)
    requires p.col < COLS
    ensures var q := Feed(p, '\t');
            q.col == (p.col + 3) % 100 && q.row == p.row + (p.col + 3) / 100 && q.cells == p.cells
  {
  }

  ghost predicate NextRow(p: Page, q: Page) {
    p.row <= q.row <= p.row + 1 && (p.col < COLS ==> q.col < COLS)
  }

  lemma FeedRows(p: Page, c: char)
    requires p.col < COLS && c != BACKSPACE
    ensures NextRow(p, Feed(p, c))
  {
  }

  /** The window keeps up with the text: before the last character is printed
      the cursor is put on the last row of the window, if it has left it. */
  lemma {:induction false} WindowFollows(s: string)
    requires s != [] && BACKSPACE !in s
    ensures Safe(EMPTY_PAGE, 0, s) && Safe(EMPTY_PAGE, 0, s[..|s| - 1])
    ensures var row := FeedAll(EMPTY_PAGE, 0, s[..|s| - 1]).row;
            ScrollAll(EMPTY_PAGE, 0, s) == if row < 37 then 0 else row - 36
    ensures NextRow(FeedAll(EMPTY_PAGE, 0, s[..|s| - 1]), FeedAll(EMPTY_PAGE, 0, s))
    ensures FeedAll(EMPTY_PAGE, 0, s).col < COLS
    decreases |s|
  {
    NoBackspaceSafe(EMPTY_PAGE, 0, s);
    LastFed(EMPTY_PAGE, 0, s);
    var n := |s| - 1;
    if n > 0 {
      WindowFollows(s[..n]);
    }
    FeedRows(FeedAll(EMPTY_PAGE, 0, s[..n]), s[n]);
  }

  /** Characters 32 to 127 are the ones that are drawn. */
  ghost predicate AllPrintable(s: string) {
    forall i :: 0 <= i < |s| ==> 32 <= s[i] as int <= 127
  }

  /** The page after `s` was written over row `row` from column `col` on. */
  ghost predicate Overwritten(p: Page, q: Page, row: nat, col: nat, s: string) {
    forall r: nat, c: nat {:trigger Shown(q, r, c)} ::
      Shown(q, r, c) == if r == row && col <= c < col + |s| then s[c - col] else Shown(p, r, c)
  }

  /** Printable text that fits in the row is written from the cursor on, and the
      cursor ends up behind it. */
  lemma {:induction false} LineWritten(p: Page, top: nat, s: string)
    requires AllPrintable(s) && p.col + |s| < COLS
    ensures Safe(p, top, s)
    ensures var q := FeedAll(p, top, s);
            q.row == p.row && q.col == p.col + |s| && Overwritten(p, q, p.row, p.col, s)
    decreases |s|
  {
    if s != [] {
      var p1, rest := Feed(p, s[0]), s[1..];
      LineWritten(p1, Scrolled(top, p.row), rest);
      var q := FeedAll(p, top, s);
      forall r: nat, c: nat
        ensures Shown(q, r, c) == if r == p.row && p.col <= c < p.col + |s| then s[c - p.col] else Shown(p, r, c)
      {
        assert Shown(q, r, c) ==
               if r == p.row && p.col + 1 <= c < p.col + |s| then rest[c - p.col - 1] else Shown(p1, r, c);
      }
    }
  }

  /** A line and a newline, printed from the start of a row. */
  lemma NextLine(p: Page, top: nat, s: string)
    requires AllPrintable(s) && p.col == 0 && |s| < COLS
    ensures Safe(p, top, s + "\n")
    ensures var q := FeedAll(p, top, s + "\n");
            q.row == p.row + 1 && q.col == 0 && Overwritten(p, q, p.row, 0, s)
  {
    LineWritten(p, top, s);
    var q := FeedAll(p, top, s);
    OneFed(q, ScrollAll(p, top, s), '\n');
    FeedConcat(p, top, s, "\n");
    assert forall r: nat, c: nat :: Shown(Feed(q, '\n'), r, c) == Shown(q, r, c);
  }

  /** The lines of a text, each ended by a newline. */
  ghost function Lines(ls: seq<string>): string {
    if ls == [] then [] else Lines(ls[..|ls| - 1]) + (ls[|ls| - 1] + "\n")
  }

  /** Printed on an empty page, line `i` stands in row `i`. */
  lemma {:induction false} LinesStand(ls: seq<string>)
    requires forall i :: 0 <= i < |ls| ==> AllPrintable(ls[i]) && |ls[i]| < 100
    ensures Safe(EMPTY_PAGE, 0, Lines(ls))
    ensures var q := FeedAll(EMPTY_PAGE, 0, Lines(ls));
            && q.row == |ls| && q.col == 0
            && (forall r: nat, c: nat {:trigger Shown(q, r, c)} ::
                  Shown(q, r, c) == if r < |ls| && c < |ls[r]| then ls[r][c] else ' ')
    decreases |ls|
  {
    if ls != [] {
      var n := |ls| - 1;
      var before, line := Lines(ls[..n]), ls[n];
      LinesStand(ls[..n]);
      var p, t := FeedAll(EMPTY_PAGE, 0, before), ScrollAll(EMPTY_PAGE, 0, before);
      NextLine(p, t, line);
      FeedConcat(EMPTY_PAGE, 0, before, line + "\n");
      var q := FeedAll(EMPTY_PAGE, 0, Lines(ls));
      forall r: nat, c: nat
        ensures Shown(q, r, c) == if r < |ls| && c < |ls[r]| then ls[r][c] else ' '
      {
        assert Shown(p, r, c) == if r < n && c < |ls[r]| then ls[r][c] else ' ';
      }
    }
  }

  lemma OneFed(p: Page, top: nat, c: char)
    requires c != BACKSPACE
    ensures Safe(p, top, [c]) && FeedAll(p, top, [c]) == Feed(p, c)
  {
    assert [c][1..] == [];
  }

  /** A carriage return starts the row again: what follows is written over it. */
  lemma Overprint(p: Page, top: nat, s: string, u: string)
    requires AllPrintable(s) && AllPrintable(u) && p.col == 0 && |s| < 100 && |u| < 100
    ensures Safe(p, top, s + "\r" + u)
    ensures var q := FeedAll(p, top, s + "\r" + u);
            q.row == p.row && q.col == |u| &&
            forall c: nat {:trigger Shown(q, p.row, c)} ::
              Shown(q, p.row, c) == if c < |u| then u[c] else if c < |s| then s[c] else Shown(p, p.row, c)
  {
    LineWritten(p, top, s);
    var p1, t1 := FeedAll(p, top, s), ScrollAll(p, top, s);
    OneFed(p1, t1, '\r');
    FeedConcat(p, top, s, "\r");
    var p2, t2 := Feed(p1, '\r'), ScrollAll(p, top, s + "\r");
    LineWritten(p2, t2, u);
    FeedConcat(p, top, s + "\r", u);
    assert forall c: nat :: Shown(p2, p.row, c) == Shown(p1, p.row, c);
  }

  /** A backspace behind a drawn character blanks it and puts the cursor back. */
  lemma BackspaceErases(p: Page, c: char)
    requires 32 <= c as int <= 127 && p.col < 100
    ensures var q := Feed(Feed(p, c), '\U{0008}');
            && q.row == p.row && q.col == p.col && Shown(q, p.row, p.col) == ' '
            && forall r: nat, k: nat :: (r, k) != (p.row, p.col) ==> Shown(q, r, k) == Shown(p, r, k)
  {
  }

  /** Every other character is ignored. */
  lemma Ignored(p: Page, c: char)
    requires !(32 <= c as int <= 127) && c as int != 8 && c as int != 9 && c as int != 10 && c as int != 13
    ensures Feed(p, c) == p
  {
  }

  /** Printable text on an empty page fills it row by row: character `k` stands
      in row k / 100 and column k % 100. */
  lemma {:induction false} WrappedText(s: string)
    requires AllPrintable(s)
    ensures BACKSPACE !in s && Safe(EMPTY_PAGE, 0, s)
    ensures var p := FeedAll(EMPTY_PAGE, 0, s);
            && p.row == |s| / 100 && p.col == |s| % 100
            && forall k :: 0 <= k < |s| ==> Shown(p, k / 100, k % 100) == s[k]
  {
    NoBackspaceSafe(EMPTY_PAGE, 0, s);
    if s != [] {
      var n := |s| - 1;
      var front := s[..n];
      WrappedText(front);
      LastFed(EMPTY_PAGE, 0, s);
      var p := FeedAll(EMPTY_PAGE, 0, front);
      forall k | 0 <= k < |s|
        ensures Shown(Feed(p, s[n]), k / 100, k % 100) == s[k]
      {
        if k < n {
          assert front[k] == s[k];
        }
      }
    }
  }
}
