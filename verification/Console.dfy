/** The text console: a cursor and a cell buffer of 37 rows of 100 columns that
    scrolls when the cursor has left the last row. */
module Consoles {
  import opened Screen
  import opened Stdlib

  class Console {
    var row: nat
    var col: nat
    /** The cells of the double buffer, row by row. */
    const cells: array<char>
    /** The page the screen shows a part of, and its first visible row. */
    ghost var page: Page
    ghost var top: nat

    /** Cell `k` shows what the page has `top` rows further down. */
    ghost predicate Shows()
      reads this, cells
    {
      cells.Length == ROWS * COLS &&
      forall k :: 0 <= k < ROWS * COLS ==> cells[k] == Shown(page, top + k / COLS, k % COLS)
    }

    ghost predicate Valid()
      reads this, cells
    {
      && Shows()
      && col < COLS && row <= ROWS
      && page.row == top + row && page.col == col
      && DrawnAbove(page, top + ROWS)
    }

    constructor ()
      ensures Valid() && fresh(cells) && cells.Length == 37 * 100 && page == EMPTY_PAGE && top == 0
    {
      cells := new char[ROWS * COLS](_ => ' ');
      row, col := 0, 0;
      page, top := EMPTY_PAGE, 0;
    }

    /** Advance the cursor. */
    method CursorNext()
      requires Valid() && (row < ROWS || col + 1 < COLS)
      modifies this
      ensures Valid() && page == Next(old(page)) && top == old(top)
    {
      if col + 1 < COLS {
        col := col + 1;
      } else {
        col := 0;
        row := row + 1;
      }
      page := Next(page);
    }

    /** Step the cursor back; in the upper left corner the 16-bit row would wrap. */
    method CursorBack()
      requires Valid() && !(row == 0 && col == 0)
      modifies this
      ensures Valid() && page == Back(old(page)) && top == old(top)
    {
      if col > 0 {
        col := col - 1;
      } else {
        col := COLS - 1;
        row := row - 1;
      }
      page := Back(page);
    }

    method LineFeed()
      requires Valid() && row < ROWS
      modifies this
      ensures Valid() && page == Page(old(page).cells, old(page).row + 1, old(page).col) && top == old(top)
    {
      row := row + 1;
      page := Page(page.cells, page.row + 1, page.col);
    }

    method CarriageReturn()
      requires Valid()
      modifies this
      ensures Valid() && page == Page(old(page).cells, old(page).row, 0) && top == old(top)
    {
      col := 0;
      page := Page(page.cells, page.row, 0);
    }

    /** Move every row up by one and blank the last one. */
    method ScrollDown()
      requires Valid() && row == ROWS
      modifies this, cells
      ensures Valid() && page == old(page) && top == old(top) + 1
    {
      MemCpyWithin(cells, 0, COLS, (ROWS - 1) * COLS);
      row := row - 1;
      var x := 0;
      while x < COLS
        invariant 0 <= x <= COLS
        invariant forall k :: 0 <= k < (ROWS - 1) * COLS ==> cells[k] == old(cells[k + COLS])
        invariant forall k :: (ROWS - 1) * COLS <= k < (ROWS - 1) * COLS + x ==> cells[k] == ' '
        modifies cells
      {
        cells[(ROWS - 1) * COLS + x] := ' ';
        x := x + 1;
      }
      top := top + 1;
    }

    /** Draw a glyph at the cursor, which is on the screen. */
    method DrawGlyph(c: char)
      requires Valid() && row < ROWS
      modifies this, cells
      ensures Valid() && page == Draw(old(page), c) && top == old(top)
      ensures row == old(row) && col == old(col)
    {
      cells[row * COLS + col] := c;
      page := Draw(page, c);
    }

    /** Print one character. Backspace in the upper left corner is excluded. */
    method PrintChar(c: char)
      requires Valid()
      requires !(c == BACKSPACE && col == 0 && row == 0)
      modifies this, cells
      ensures Valid() && page == Feed(old(page), c) && top == Scrolled(old(top), old(page).row)
    {
      if row == ROWS {
        ScrollDown();
      }
      if Printable(c) {
        DrawGlyph(c);
        CursorNext();
        return;
      }
      if c == '\n' {
        LineFeed();
        CarriageReturn();
      } else if c == '\t' {
        CursorNext();
        CursorNext();
        CursorNext();
      } else if c == '\r' {
        CarriageReturn();
      } else if c == BACKSPACE {
        CursorBack();
        DrawGlyph(' ');
        CursorNext();
        CursorBack();
      }
    }

    /** Print a string that ends at the first NUL. */
    method Print(str: array<char>)
      requires Valid() && '\0' in str[..] && str != cells
      requires Safe(page, top, CString(str[..]))
      modifies this, cells
      ensures Valid()
      ensures page == FeedAll(old(page), old(top), CString(str[..]))
      ensures top == ScrollAll(old(page), old(top), CString(str[..]))
    {
      ghost var s := CString(str[..]);
      var i := 0;
      while str[i] != '\0'
        invariant 0 <= i <= |s| && Valid() && s == CString(str[..])
        invariant Safe(page, top, s[i..])
        invariant FeedAll(old(page), old(top), s) == FeedAll(page, top, s[i..])
        invariant ScrollAll(old(page), old(top), s) == ScrollAll(page, top, s[i..])
        decreases str.Length - i
      {
        assert i < |s| && s[i] == str[i];
        assert s[i..][0] == s[i] && s[i..][1..] == s[i + 1..];
        PrintChar(str[i]);
        i := i + 1;
      }
      assert i == |s|;
    }
  }

  /** Nothing has been drawn in row `row` or below it. */
  ghost predicate DrawnAbove(p: Page, row: nat) {
    forall at :: at in p.cells ==> at.0 < row
  }
}
