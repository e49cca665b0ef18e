/** A console whose 25 visible rows slide through a buffer of 50, printed on without tty_setpos. */
module Tty {
  import opened Screen

  class Console {
    const mem: array<Cell>     // SLACK words, and the console's buffer
    var textcolor: Color
    var textcolorOrig: Color
    var x: nat
    var y: nat
    var ybuf: nat              // the cursor's row in the buffer
    var tlcorner: nat          // the word in the top left corner, from the start of the buffer
    ghost var plain: Plain

    constructor (color: Color)
      ensures mem.Length == MEMORY && fresh(mem) && textcolor == textcolorOrig == color
    {
      mem := new Cell[MEMORY](_ => Cell(Color(0, 0), ' '));
      textcolor, textcolorOrig, x, y, ybuf, tlcorner := color, color, 0, 0, 0, 0;
      plain := Cleared(color, color);
    }

    /** Where the console is on its buffer: the visible rows end with the cursor's, or nothing has scrolled yet. */
    ghost predicate Placed()
      reads this
    {
      && x < SCREEN_COLS && y < SCREEN_ROWS && y <= ybuf < 2 * SCREEN_ROWS
      && (ybuf == y || y == SCREEN_ROWS - 1) && tlcorner == SCREEN_COLS * (ybuf - y)
    }

    /** The visible rows are the plain screen's. */
    ghost predicate Valid()
      reads this, mem
    {
      && mem.Length == MEMORY && Placed() && plain.Valid()
      && plain.x == x && plain.y == y && plain.color == textcolor && plain.base == textcolorOrig
      && Shows(mem[..], ybuf - y, plain.rows) && Copied(mem[..], ybuf)
    }

    /** What is seen at a row and a column, counted from the top left corner, is what the plain screen has there. */
    lemma Seen(r: nat, c: nat)
      requires Valid() && r < SCREEN_ROWS && c < SCREEN_COLS
      ensures mem[SLACK + tlcorner + SCREEN_COLS * r + c] == plain.rows[r][c]
    {
    }

    /** tty_clear. */
    method Clear()
      requires mem.Length == MEMORY
      modifies this, mem
      ensures Valid() && textcolor == old(textcolor) && textcolorOrig == old(textcolorOrig)
      ensures plain == Cleared(textcolor, textcolorOrig) && x == 0 && y == 0
      ensures forall r, c | 0 <= r < 25 && 0 <= c < 80 :: plain.rows[r][c] == Cell(textcolor, ' ')
    {
      Fill(0, 2 * SCREEN_SIZE);
      x, y, ybuf, tlcorner := 0, 0, 0, 0;
      plain := Cleared(textcolor, textcolorOrig);
      forall r | 0 <= r < SCREEN_ROWS
        ensures plain.rows[r] == RowAt(mem[..], r)
      {
        forall c | 0 <= c < SCREEN_COLS
          ensures RowAt(mem[..], r)[c] == BlankRow(textcolor)[c]
        {
          assert mem[Word(r, c)] == Cell(textcolor, ' ');
        }
      }
    }

    /** memsetw: blanks this many words of the buffer. */
    method Fill(at: nat, words: nat)
      requires mem.Length == MEMORY && at + words <= CONSOLE_SIZE
      modifies mem
      ensures forall i | 0 <= i < MEMORY ::
        mem[i] == if SLACK + at <= i < SLACK + at + words then Cell(textcolor, ' ') else old(mem[i])
    {
      forall i | SLACK + at <= i < SLACK + at + words {
        mem[i] := Cell(textcolor, ' ');
      }
    }

    /** tty_set_textcolor. */
    method SetTextColor(fg: Nibble, bg: Nibble)
      requires Valid()
      modifies this`textcolor, this`textcolorOrig, this`plain
      ensures Valid() && plain == old(plain).(color := Color(fg, bg), base := Color(fg, bg))
    {
      textcolor, textcolorOrig := Color(fg, bg), Color(fg, bg);
      plain := plain.(color := textcolor, base := textcolorOrig);
    }

    /** The colour that a colour code sets, until the next one. */
    method Override(color: Color)
      requires Valid()
      modifies this`textcolor, this`plain
      ensures Valid() && plain == old(plain).(color := color)
    {
      textcolor := color;
      plain := plain.(color := color);
    }

    /** Writes a character at a column of the cursor's row. */
    method WriteAt(col: nat, ch: char)
      requires Valid() && col < SCREEN_COLS
      modifies this`plain, mem
      ensures Valid() && plain == Put(old(plain), col, ch)
    {
      ghost var m := mem[..];
      mem[SLACK + ybuf * SCREEN_COLS + col] := Inked(textcolor, ch);
      assert SLACK + ybuf * SCREEN_COLS + col == Word(ybuf, col);
      RowWritten(m, mem[..], ybuf, RowAt(m, ybuf)[col := Inked(textcolor, ch)]);
      CursorRowWritten(m, mem[..], ybuf, y, plain.rows, RowAt(m, ybuf)[col := Inked(textcolor, ch)]);
      assert plain.rows[y] == RowAt(m, ybuf - y + y);
      plain := Put(plain, col, ch);
    }

    /** The copy that a line feed makes of the finished row, one screen before it. */
    method CopyRow()
      requires mem.Length == MEMORY && ybuf < 2 * SCREEN_ROWS
      modifies mem
      ensures OnlyRow(old(mem[..]), mem[..], ybuf - SCREEN_ROWS, RowAt(old(mem[..]), ybuf))
    {
      ghost var m := mem[..];
      var from, to := SLACK + ybuf * SCREEN_COLS, SLACK + ybuf * SCREEN_COLS - SCREEN_SIZE;
      forall c | 0 <= c < SCREEN_COLS {
        mem[to + c] := mem[from + c];
      }
      RowWritten(m, mem[..], ybuf - SCREEN_ROWS, RowAt(m, ybuf));
    }

    /** memsetw as the scroll calls it: with the bytes of one row, which as words are two rows. */
    method FillRow(row: nat)
      requires mem.Length == MEMORY && row < 2 * SCREEN_ROWS
      modifies mem
      ensures RowAt(mem[..], row) == BlankRow(textcolor) && RowAt(mem[..], row + 1) == BlankRow(textcolor)
      ensures forall r | -SCREEN_ROWS <= r < row :: RowAt(mem[..], r) == RowAt(old(mem[..]), r)
    {
      ghost var m := mem[..];
      Fill(row * SCREEN_COLS, SCREEN_COLS * 2);
      forall r | -SCREEN_ROWS <= r < row
        ensures RowAt(mem[..], r) == RowAt(m, r)
      {
        RowsSame(m, mem[..], r);
      }
      forall r, c | row <= r <= row + 1 && 0 <= c < SCREEN_COLS
        ensures RowAt(mem[..], r)[c] == BlankRow(textcolor)[c]
      {
        assert mem[Word(r, c)] == Cell(textcolor, ' ');
      }
    }

    /** Blanks the row at the bottom of the screen. */
    method BlankBottom()
      requires mem.Length == MEMORY && ybuf < 2 * SCREEN_ROWS
      modifies mem
      ensures RowAt(mem[..], ybuf) == BlankRow(textcolor)
      ensures forall r | -SCREEN_ROWS <= r < ybuf :: RowAt(mem[..], r) == RowAt(old(mem[..]), r)
    {
      FillRow(ybuf);
    }

    /** A line feed. */
    method Feed()
      requires Valid()
      modifies this`y, this`ybuf, this`tlcorner, this`plain, mem
      ensures Valid() && plain == LineFeed(old(plain))
    {
      ghost var m := mem[..];
      CopyRow();
      y := y + 1;
      ybuf := ybuf + 1;
      if y == SCREEN_ROWS {
        Scroll(m, mem[..]);
      } else {
        Moved(m, mem[..], old(ybuf), plain.rows);
        plain := LineFeed(plain);
      }
    }

    /** The part of a line feed at the bottom of the screen. */
    method Scroll(ghost m0: Memory, ghost m1: Memory)
      requires mem.Length == MEMORY == |m0| && mem[..] == m1 && x < SCREEN_COLS
      requires y == SCREEN_ROWS <= ybuf <= 2 * SCREEN_ROWS
      requires plain.Valid() && plain.x == x && plain.y == y - 1 && plain.color == textcolor
      requires plain.base == textcolorOrig
      requires Shows(m0, ybuf - SCREEN_ROWS, plain.rows) && Copied(m0, ybuf - 1)
      requires OnlyRow(m0, m1, ybuf - 1 - SCREEN_ROWS, RowAt(m0, ybuf - 1))
      modifies this`y, this`ybuf, this`tlcorner, this`plain, mem
      ensures Valid() && plain == LineFeed(old(plain))
    {
      y := y - 1;
      if ybuf == SCREEN_ROWS * 2 { ybuf := ybuf - SCREEN_ROWS; }
      BlankBottom();
      tlcorner := (ybuf + 1) * SCREEN_COLS - SCREEN_SIZE;
      Scrolled(m0, m1, mem[..], old(ybuf) - 1, ybuf, plain.rows, textcolor);
      plain := LineFeed(plain);
    }

    /** tty_printchar, for a string from position i on: how many characters it is done with. */
    method PrintChar(str: string, i: nat) returns (used: nat)
      requires Valid() && i < |str|
      modifies this`textcolor, this`x, this`y, this`ybuf, this`tlcorner, this`plain, mem
      ensures Valid() && (plain, used) == TypedStart(old(plain), str[i..])
    {
      if str[i] == ESC {
        used := PrintEscape(str[i..]);
      } else {
        used := 1;
        Write(str[i]);
      }
    }

    /** An escape, which writes nothing. */
    method PrintEscape(str: string) returns (used: nat)
      requires Valid() && str != ""
      modifies this`textcolor, this`plain
      ensures Valid() && plain == old(plain).(color := Escape(old(plain.color), old(plain.base), str).0)
      ensures used == Escape(old(plain.color), old(plain.base), str).1
    {
      used := 1;
      if CharAt(str, 1) == '[' && CharAt(str, 2) != NUL && CharAt(str, 3) == ']' {
        var code := ColorCode(str[2], textcolorOrig.fg);
        if code != -1 {
          Override(textcolor.(fg := code));
          used := 4;
        }
      } else if CharAt(str, 1) == '{' && CharAt(str, 2) != NUL && CharAt(str, 3) == '}' {
        var code := ColorCode(str[2], textcolorOrig.bg);
        if code != -1 {
          Override(textcolor.(bg := code));
          used := 4;
        }
      }
    }

    /** Any other character. */
    method Write(ch: char)
      requires Valid()
      modifies this`x, this`y, this`ybuf, this`tlcorner, this`plain, mem
      ensures Valid() && plain == Typed(old(plain), ch)
    {
      var linefeed := false;
      if ch == '\n' {
        SetColumn(0);
        linefeed := true;
      } else if ch == BACKSPACE {
        if x > 0 {
          SetColumn(x - 1);
          WriteAt(x, ' ');
        }
      } else {
        WriteAt(x, ch);
        if x + 1 == SCREEN_COLS {
          SetColumn(0);
          linefeed := true;
        } else {
          SetColumn(x + 1);
        }
      }
      if linefeed { Feed(); }
    }

    method SetColumn(col: nat)
      requires Valid() && col < SCREEN_COLS
      modifies this`x, this`plain
      ensures Valid() && x == col && plain == old(plain).(x := col)
    {
      x := col;
      plain := plain.(x := col);
    }

    /** tty_print, for a string of bytes up to its terminator. */
    method Print(str: string)
      requires Valid() && forall i :: 0 <= i < |str| ==> 0 < str[i] as int < 256
      modifies this`textcolor, this`x, this`y, this`ybuf, this`tlcorner, this`plain, mem
      ensures Valid() && plain == TypedAll(old(plain), str)
    {
      ghost var p := plain;
      var i := 0;
      assert str[0..] == str;
      while i < |str|
        invariant i <= |str| && Valid() && TypedAll(plain, str[i..]) == TypedAll(p, str)
      {
        ghost var rest := str[i..];
        var used := PrintChar(str, i);
        assert rest[used..] == str[i + used..];
        i := i + used;
      }
    }
  }

  /** Writing in the cursor's row changes that row of the screen only, and no copy. */
  lemma CursorRowWritten(m: Memory, m': Memory, ybuf: nat, y: nat, rows: seq<Row>, row: Row)
    requires |m| == |m'| == MEMORY && y < SCREEN_ROWS && y <= ybuf < 2 * SCREEN_ROWS
    requires ybuf == y || y == SCREEN_ROWS - 1
    requires Shows(m, ybuf - y, rows) && Copied(m, ybuf) && OnlyRow(m, m', ybuf, row)
    ensures Shows(m', ybuf - y, rows[y := row]) && Copied(m', ybuf)
  {
  }

  /** A line feed above the bottom leaves the rows where they are. */
  lemma Moved(m0: Memory, m1: Memory, ybuf: nat, rows: seq<Row>)
    requires |m0| == |m1| == MEMORY && ybuf + 1 < SCREEN_ROWS
    requires OnlyRow(m0, m1, ybuf - SCREEN_ROWS, RowAt(m0, ybuf)) && Shows(m0, 0, rows)
    ensures Shows(m1, 0, rows) && Copied(m1, ybuf + 1)
  {
  }

  /** A line feed at the bottom: the screen slides on by a row, or, at the end of the buffer, back to the copies. */
  lemma Scrolled(m0: Memory, m1: Memory, m2: Memory, ybuf: nat, ybuf': nat, rows: seq<Row>, color: Color)
    requires |m0| == |m1| == |m2| == MEMORY && SCREEN_ROWS - 1 <= ybuf < 2 * SCREEN_ROWS
    requires ybuf' == if ybuf + 1 == 2 * SCREEN_ROWS then SCREEN_ROWS else ybuf + 1
    requires Shows(m0, ybuf + 1 - SCREEN_ROWS, rows) && Copied(m0, ybuf)
    requires OnlyRow(m0, m1, ybuf - SCREEN_ROWS, RowAt(m0, ybuf))
    requires RowAt(m2, ybuf') == BlankRow(color)
    requires forall r | -SCREEN_ROWS <= r < ybuf' :: RowAt(m2, r) == RowAt(m1, r)
    ensures Shows(m2, ybuf' + 1 - SCREEN_ROWS, rows[1..] + [BlankRow(color)]) && Copied(m2, ybuf')
  {
    var top, rows' := ybuf' + 1 - SCREEN_ROWS, rows[1..] + [BlankRow(color)];
    forall r | 0 <= r < SCREEN_ROWS
      ensures rows'[r] == RowAt(m2, top + r)
    {
      if r + 1 < SCREEN_ROWS {
        var was := ybuf + 1 - SCREEN_ROWS + (r + 1);   // where the row was
        assert rows'[r] == rows[r + 1] == RowAt(m0, was);
        if ybuf' == ybuf + 1 {
          assert top + r == was;
        } else {
          assert top + r == was - SCREEN_ROWS;
        }
      }
    }
    forall r | SCREEN_ROWS <= r < ybuf'
      ensures RowAt(m2, r - SCREEN_ROWS) == RowAt(m2, r)
    {
      if r < ybuf { assert RowAt(m0, r - SCREEN_ROWS) == RowAt(m0, r); }
    }
  }
}
