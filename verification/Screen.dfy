/** A plain text screen of 25 rows, and how rows lie in the memory of a console. */
module Screen {
  const SCREEN_ROWS := 25
  const SCREEN_COLS := 80
  const SCREEN_SIZE := 2000           // SCREEN_ROWS * SCREEN_COLS
  const CONSOLE_SIZE := 0x1000        // words between the buffers of two consoles
  const SLACK := SCREEN_SIZE          // words before the buffer that row copies may reach
  const MEMORY := 6096                // SLACK + CONSOLE_SIZE

  type Nibble = n: nat | n < 16

  /** The colours of a character and of its background. */
  datatype Color = Color(fg: Nibble, bg: Nibble)

  /** A word of screen memory: colour bits and a character. */
  datatype Cell = Cell(color: Color, ch: char)

  const BACKSPACE: char := 8 as char
  const ESC: char := 27 as char
  const NUL: char := 0 as char

  type Row = seq<Cell>

  function BlankRow(color: Color): (r: Row)
    ensures |r| == SCREEN_COLS && forall c :: 0 <= c < SCREEN_COLS ==> r[c] == Cell(color, ' ')
  {
    seq(SCREEN_COLS, _ => Cell(color, ' '))
  }

  /** A plain screen: its rows, the cursor, the colours that are written, and those that a colour code can go back
      to. */
  datatype Plain = Plain(rows: seq<Row>, x: nat, y: nat, color: Color, base: Color) {
    ghost predicate Valid() {
      && |rows| == SCREEN_ROWS && (forall r :: 0 <= r < SCREEN_ROWS ==> |rows[r]| == SCREEN_COLS)
      && x < SCREEN_COLS && y < SCREEN_ROWS
    }
  }

  function Cleared(color: Color, base: Color): Plain {
    Plain(seq(SCREEN_ROWS, _ => BlankRow(color)), 0, 0, color, base)
  }

  /** What is written for a character: one from 128 on, negative as a char, sets all colour bits. */
  function Inked(color: Color, ch: char): Cell {
    Cell(if ch as int >= 128 then Color(15, 15) else color, ch)
  }

  /** The plain screen with one cell of the cursor's row written. */
  function Put(p: Plain, x: nat, ch: char): Plain
    requires p.y < |p.rows| && x < |p.rows[p.y]|
  {
    p.(rows := p.rows[p.y := p.rows[p.y][x := Inked(p.color, ch)]])
  }

  /** A line feed: at the bottom every row moves up and a blank one comes in. */
  function LineFeed(p: Plain): Plain
    requires |p.rows| == SCREEN_ROWS
  {
    if p.y + 1 < SCREEN_ROWS then p.(y := p.y + 1)
    else p.(rows := p.rows[1..] + [BlankRow(p.color)])
  }

  /** One printed character, which is no escape. */
  function Typed(p: Plain, ch: char): Plain
    requires p.Valid()
  {
    if ch == '\n' then LineFeed(p.(x := 0))
    else if ch == BACKSPACE then (if p.x > 0 then Put(p, p.x - 1, ' ').(x := p.x - 1) else p)
    else
      var q := Put(p, p.x, ch);
      if p.x + 1 == SCREEN_COLS then LineFeed(q.(x := 0)) else q.(x := p.x + 1)
  }

  lemma TypedValid(p: Plain, ch: char)
    requires p.Valid()
    ensures Typed(p, ch).Valid()
  {
  }

  // ----- Colour codes -----

  /** The colour that a character stands for, the original one for '-', and -1 for any other character. */
  function ColorCode(ch: char, orig: Nibble): (code: int)
    ensures -1 <= code < 16
  {
    if '0' <= ch <= '9' then ch as int - '0' as int
    else if 'a' <= ch <= 'f' then ch as int - 'a' as int + 10
    else if 'A' <= ch <= 'F' then ch as int - 'A' as int + 10
    else if ch == '-' then orig
    else -1
  }

  /** A character of a string, or its terminator. */
  function CharAt(str: string, i: nat): char { if i < |str| then str[i] else NUL }

  /** An escape is followed by a character in these brackets. */
  predicate Bracketed(str: string, open: char, shut: char) {
    CharAt(str, 1) == open && CharAt(str, 2) != NUL && CharAt(str, 3) == shut
  }

  /** An escape: the colours after it, and how many characters it takes, one if it is no colour code. */
  function Escape(color: Color, base: Color, str: string): (r: (Color, nat))
    ensures r.1 == 1 || (r.1 == 4 <= |str|)
  {
    if Bracketed(str, '[', ']') then
      var code := ColorCode(str[2], base.fg);
      if code != -1 then (color.(fg := code), 4) else (color, 1)
    else if Bracketed(str, '{', '}') then
      var code := ColorCode(str[2], base.bg);
      if code != -1 then (color.(bg := code), 4) else (color, 1)
    else (color, 1)
  }

  /** What the start of a string does to the screen, and how many characters of it are done then. */
  function TypedStart(p: Plain, str: string): (r: (Plain, nat))
    requires p.Valid() && str != ""
    ensures r.0.Valid() && 0 < r.1 <= |str|
  {
    if str[0] == ESC then
      var (color, used) := Escape(p.color, p.base, str);
      (p.(color := color), used)
    else
      TypedValid(p, str[0]);
      (Typed(p, str[0]), 1)
  }

  /** A whole string. */
  function TypedAll(p: Plain, str: string): (q: Plain)
    requires p.Valid()
    ensures q.Valid()
    decreases |str|
  {
    if str == "" then p
    else
      var (q, used) := TypedStart(p, str);
      TypedAll(q, str[used..])
  }

  /** A text of printable characters and line feeds, without an escape. */
  predicate IsText(str: string) { ESC !in str }

  /** Characters are printed one by one. */
  lemma {:induction false} TypedConcat(p: Plain, text: string, rest: string)
    requires p.Valid() && IsText(text)
    ensures TypedAll(p, text + rest) == TypedAll(TypedAll(p, text), rest)
    decreases |text|
  {
    if text == "" {
      assert "" + rest == rest;
    } else {
      var (q, used) := TypedStart(p, text);
      assert TypedStart(p, text + rest) == (q, used);
      assert (text + rest)[1..] == text[1..] + rest;
      TypedConcat(q, text[1..], rest);
    }
  }

  /** Text between a colour code and the code for going back is printed in that colour, and the colour is then as
      before. */
  lemma ColoredText(p: Plain, code: char, text: string)
    requires p.Valid() && p.color.fg == p.base.fg && ColorCode(code, p.base.fg) != -1 && IsText(text)
    ensures var q := TypedAll(p.(color := p.color.(fg := ColorCode(code, p.base.fg))), text);
      TypedAll(p, [ESC, '[', code, ']'] + text + [ESC, '[', '-', ']']) == q.(color := p.color)
  {
    var head, tail := [ESC, '[', code, ']'], [ESC, '[', '-', ']'];
    var p' := p.(color := p.color.(fg := ColorCode(code, p.base.fg)));
    var str := head + text + tail;
    assert str[4..] == text + tail;
    assert TypedStart(p, str) == (p', 4);
    TypedConcat(p', text, tail);
    KeepsColor(p', text);
    var q := TypedAll(p', text);
    assert TypedStart(q, tail) == (q.(color := p.color), 4);
    assert tail[4..] == "";
  }

  /** The same for the background. */
  lemma GroundedText(p: Plain, code: char, text: string)
    requires p.Valid() && p.color.bg == p.base.bg && ColorCode(code, p.base.bg) != -1 && IsText(text)
    ensures var q := TypedAll(p.(color := p.color.(bg := ColorCode(code, p.base.bg))), text);
      TypedAll(p, [ESC, '{', code, '}'] + text + [ESC, '{', '-', '}']) == q.(color := p.color)
  {
    var head, tail := [ESC, '{', code, '}'], [ESC, '{', '-', '}'];
    var p' := p.(color := p.color.(bg := ColorCode(code, p.base.bg)));
    var str := head + text + tail;
    assert str[4..] == text + tail;
    assert TypedStart(p, str) == (p', 4);
    TypedConcat(p', text, tail);
    KeepsColor(p', text);
    var q := TypedAll(p', text);
    assert TypedStart(q, tail) == (q.(color := p.color), 4);
    assert tail[4..] == "";
  }

  /** Text changes no colour. */
  lemma {:induction false} KeepsColor(p: Plain, text: string)
    requires p.Valid() && IsText(text)
    ensures TypedAll(p, text).color == p.color && TypedAll(p, text).base == p.base
    decreases |text|
  {
    if text != "" {
      var (q, used) := TypedStart(p, text);
      KeepsColor(q, text[1..]);
    }
  }

  // ----- Rows in memory -----

  type Memory = seq<Cell>

  /** The word at column c of row r of the buffer; rows before the buffer have negative numbers. */
  function Word(r: int, c: int): int { SLACK + SCREEN_COLS * r + c }

  /** Row r of the buffer. */
  function RowAt(m: Memory, r: int): (row: Row)
    requires |m| == MEMORY && -SCREEN_ROWS <= r <= 2 * SCREEN_ROWS
    ensures |row| == SCREEN_COLS && forall c :: 0 <= c < SCREEN_COLS ==> row[c] == m[Word(r, c)]
  {
    m[Word(r, 0)..Word(r, SCREEN_COLS)]
  }

  /** The 25 rows from `top` on are those of the plain screen. */
  ghost predicate Shows(m: Memory, top: nat, rows: seq<Row>)
    requires |m| == MEMORY && top <= SCREEN_ROWS
  {
    |rows| == SCREEN_ROWS && forall r :: 0 <= r < SCREEN_ROWS ==> rows[r] == RowAt(m, top + r)
  }

  /** Each finished row of the second half has a copy 25 rows before it. */
  ghost predicate Copied(m: Memory, ybuf: nat)
    requires |m| == MEMORY && ybuf <= 2 * SCREEN_ROWS
  {
    forall r :: SCREEN_ROWS <= r < ybuf ==> RowAt(m, r - SCREEN_ROWS) == RowAt(m, r)
  }

  /** Between two memories only row k may differ, and it is `row` in the second. */
  ghost predicate OnlyRow(m: Memory, m': Memory, k: int, row: Row)
    requires |m| == |m'| == MEMORY && -SCREEN_ROWS <= k <= 2 * SCREEN_ROWS
  {
    && RowAt(m', k) == row
    && forall r :: -SCREEN_ROWS <= r <= 2 * SCREEN_ROWS && r != k ==> RowAt(m', r) == RowAt(m, r)
  }

  lemma RowsSame(m: Memory, m': Memory, r: int)
    requires |m| == |m'| == MEMORY && -SCREEN_ROWS <= r <= 2 * SCREEN_ROWS
    requires forall i :: Word(r, 0) <= i < Word(r, SCREEN_COLS) ==> m'[i] == m[i]
    ensures RowAt(m', r) == RowAt(m, r)
  {
  }

  /** Writing the words of one row changes that row only. */
  lemma RowWritten(m: Memory, m': Memory, k: int, row: Row)
    requires |m| == |m'| == MEMORY && -SCREEN_ROWS <= k <= 2 * SCREEN_ROWS && |row| == SCREEN_COLS
    requires forall c :: 0 <= c < SCREEN_COLS ==> m'[Word(k, c)] == row[c]
    requires forall i :: 0 <= i < MEMORY && !(Word(k, 0) <= i < Word(k, SCREEN_COLS)) ==> m'[i] == m[i]
    ensures OnlyRow(m, m', k, row)
  {
  }
}
