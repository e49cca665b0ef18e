/** Where text appears on a screen of 25 rows of 80 columns, counted along the rows from where the screen was before. */
module Layout {
  import opened Screen

  /** Text without an escape or a backspace. */
  predicate IsPlain(t: string) { IsText(t) && BACKSPACE !in t }

  /** The position after a text that starts at a position: each character takes one, and a newline goes to the start of
      the next row. */
  function Position(start: nat, t: string): nat
    decreases |t|
  {
    if t == "" then start
    else
      var at := Position(start, t[..|t| - 1]);
      if t[|t| - 1] == '\n' then 80 * (at / 80 + 1) else at + 1
  }

  /** How many rows have left the screen when the cursor is at a position. */
  function Gone(end: nat): nat { if end / 80 > 24 then end / 80 - 24 else 0 }

  /** The cell at a position: the character of the text that was put there, or what the screen had, or a blank. */
  function CellAt(p: Plain, t: string, at: nat): Cell
    requires p.Valid()
    decreases |t|
  {
    if t == "" then (if at < 2000 then p.rows[at / 80][at % 80] else Cell(p.color, ' '))
    else
      var front, ch := t[..|t| - 1], t[|t| - 1];
      if ch != '\n' && Position(80 * p.y + p.x, front) == at then Printed(p.color, ch) else CellAt(p, front, at)
  }

  /** A printed character; one from 128 on is negative in C, and sets every colour bit. */
  function Printed(color: Color, ch: char): Cell {
    if ch as int >= 128 then Cell(Color(15, 15), ch) else Cell(color, ch)
  }

  /** The screen's cells are those from a row on. */
  ghost predicate FromRow(p: Plain, t: string, q: Plain, gone: nat)
    requires p.Valid() && q.Valid()
  {
    forall r, c {:trigger q.rows[r][c]} | 0 <= r < 25 && 0 <= c < 80 ::
      q.rows[r][c] == CellAt(p, t, 80 * (r + gone) + c)
  }

  /** The screen shows the text laid out along its rows, and the cursor is where it ends. */
  ghost predicate LaidOut(p: Plain, t: string, q: Plain)
    requires p.Valid()
  {
    var end := Position(80 * p.y + p.x, t);
    && q.Valid() && q.x == end % 80 && q.y + Gone(end) == end / 80 && q.color == p.color && q.base == p.base
    && FromRow(p, t, q, Gone(end))
  }

  /** A text's characters have increasing positions. */
  lemma {:induction false} PositionGrows(start: nat, t: string)
    ensures start <= Position(start, t) && (t != "" ==> start < Position(start, t))
    ensures forall i :: 0 <= i < |t| ==> Position(start, t[..i]) < Position(start, t)
    decreases |t|
  {
    if t != "" {
      var front := t[..|t| - 1];
      PositionGrows(start, front);
      forall i | 0 <= i < |t|
        ensures Position(start, t[..i]) < Position(start, t)
      {
        if i < |front| { assert front[..i] == t[..i]; } else { assert t[..i] == front; }
      }
    }
  }

  /** Behind the end of a text nothing has been put. */
  lemma {:induction false} CellBehind(p: Plain, t: string, at: nat)
    requires p.Valid() && Position(80 * p.y + p.x, t) <= at
    ensures CellAt(p, t, at) == if at < 2000 then p.rows[at / 80][at % 80] else Cell(p.color, ' ')
    decreases |t|
  {
    if t != "" {
      PositionGrows(80 * p.y + p.x, t);
      CellBehind(p, t[..|t| - 1], at);
    }
  }

  lemma Along(at: nat, r: nat, c: nat)
    requires c < 80
    ensures 80 * r + c == at <==> r == at / 80 && c == at % 80
  {
  }

  /** The end of a row is followed by the start of the next. */
  lemma NextRow(at: nat)
    ensures (80 * (at / 80 + 1)) / 80 == at / 80 + 1 && (80 * (at / 80 + 1)) % 80 == 0
    ensures at % 80 == 79 ==> at + 1 == 80 * (at / 80 + 1)
    ensures at % 80 < 79 ==> (at + 1) / 80 == at / 80 && (at + 1) % 80 == at % 80 + 1
  {
  }

  /** A line feed at the bottom. */
  lemma FeedRows(p: Plain, t: string, q: Plain, gone: nat)
    requires p.Valid() && q.Valid() && q.y == 24 && q.color == p.color && FromRow(p, t, q, gone)
    requires Position(80 * p.y + p.x, t) == 80 * (25 + gone)
    ensures LineFeed(q).Valid() && FromRow(p, t, LineFeed(q), gone + 1)
  {
    var q' := LineFeed(q);
    forall r, c | 0 <= r < 25 && 0 <= c < 80
      ensures q'.rows[r][c] == CellAt(p, t, 80 * (r + (gone + 1)) + c)
    {
      if r < 24 {
        assert q'.rows[r][c] == q.rows[r + 1][c] == CellAt(p, t, 80 * (r + 1 + gone) + c);
      } else {
        CellBehind(p, t, 80 * (24 + (gone + 1)) + c);
        assert q'.rows[24] == BlankRow(q.color);
      }
    }
  }

  /** A line feed to the next row, after the text t: t with a newline, or ended by the row's last character. */
  lemma FeedLaidOut(p: Plain, t: string, t': string, q: Plain)
    requires p.Valid() && q.Valid() && q.x == 0 && q.color == p.color && q.base == p.base
    requires var end := Position(80 * p.y + p.x, t);
      && Position(80 * p.y + p.x, t') == 80 * (end / 80 + 1) && q.y + Gone(end) == end / 80
      && FromRow(p, t', q, Gone(end))
    ensures LaidOut(p, t', LineFeed(q))
  {
    var end := Position(80 * p.y + p.x, t);
    NextRow(end);
    if q.y == 24 { FeedRows(p, t', q, Gone(end)); }
  }

  lemma PutCell(p: Plain, t: string, ch: char, q: Plain, r: nat, c: nat)
    requires p.Valid() && LaidOut(p, t, q) && ch != '\n' && r < 25 && c < 80
    ensures CellAt(p, t + [ch], 80 * (r + Gone(Position(80 * p.y + p.x, t))) + c) ==
      if r == q.y && c == q.x then Printed(p.color, ch) else q.rows[r][c]
  {
    var end := Position(80 * p.y + p.x, t);
    assert (t + [ch])[..|t|] == t;
    Along(end, r + Gone(end), c);
  }

  lemma PutRows(q: Plain, ch: char, r: nat, c: nat)
    requires q.Valid() && r < 25 && c < 80
    ensures Put(q, q.x, ch).rows[r][c] == if r == q.y && c == q.x then Printed(q.color, ch) else q.rows[r][c]
  {
    assert Put(q, q.x, ch).rows[r] == if r == q.y then q.rows[r][q.x := Inked(q.color, ch)] else q.rows[r];
  }

  lemma PutCellRows(p: Plain, t: string, ch: char, q: Plain, gone: nat, r: nat, c: nat)
    requires p.Valid() && LaidOut(p, t, q) && ch != '\n' && r < 25 && c < 80
    requires gone == Gone(Position(80 * p.y + p.x, t))
    ensures Put(q, q.x, ch).rows[r][c] == CellAt(p, t + [ch], 80 * (r + gone) + c)
  {
    PutCell(p, t, ch, q, r, c);
    PutRows(q, ch, r, c);
  }

  lemma PutValid(q: Plain, ch: char)
    requires q.Valid()
    ensures Put(q, q.x, ch).Valid()
  {
  }

  /** One cell more. */
  lemma PutLaidOut(p: Plain, t: string, ch: char, q: Plain)
    requires p.Valid() && LaidOut(p, t, q) && ch != '\n'
    ensures Put(q, q.x, ch).Valid() && FromRow(p, t + [ch], Put(q, q.x, ch), Gone(Position(80 * p.y + p.x, t)))
  {
    PutValid(q, ch);
    var q', gone := Put(q, q.x, ch), Gone(Position(80 * p.y + p.x, t));
    forall r, c | 0 <= r < 25 && 0 <= c < 80
      ensures q'.rows[r][c] == CellAt(p, t + [ch], 80 * (r + gone) + c)
    {
      PutCellRows(p, t, ch, q, gone, r, c);
    }
  }

  lemma TypedLaidOut(p: Plain, t: string, ch: char, q: Plain)
    requires p.Valid() && LaidOut(p, t, q) && ch != BACKSPACE
    ensures LaidOut(p, t + [ch], Typed(q, ch))
  {
    var end := Position(80 * p.y + p.x, t);
    assert (t + [ch])[..|t|] == t;
    NextRow(end);
    if ch == '\n' {
      FeedLaidOut(p, t, t + [ch], q.(x := 0));
    } else {
      PutLaidOut(p, t, ch, q);
      var q' := Put(q, q.x, ch);
      if q.x + 1 == 80 { FeedLaidOut(p, t, t + [ch], q'.(x := 0)); }
    }
  }

  lemma CellBefore(p: Plain, r: nat, c: nat)
    requires p.Valid() && r < 25 && c < 80
    ensures CellAt(p, "", 80 * (r + 0) + c) == p.rows[r][c]
  {
    Along(80 * r + c, r, c);
  }

  lemma NothingLaidOut(p: Plain)
    requires p.Valid()
    ensures LaidOut(p, "", p)
  {
    var start := 80 * p.y + p.x;
    Along(start, p.y, p.x);
    assert Position(start, "") == start && Gone(start) == 0;
    assert FromRow(p, "", p, 0) by {
      forall r, c | 0 <= r < 25 && 0 <= c < 80
        ensures p.rows[r][c] == CellAt(p, "", 80 * (r + 0) + c)
      {
        CellBefore(p, r, c);
      }
    }
  }

  lemma TypedMore(p: Plain, front: string, ch: char)
    requires p.Valid() && IsText(front) && ch != ESC
    ensures TypedAll(p, front + [ch]) == Typed(TypedAll(p, front), ch)
  {
    TypedConcat(p, front, [ch]);
    LastTyped(TypedAll(p, front), ch);
  }

  /** A printed text is laid out along the rows of the screen, which scrolls as far as it must. */
  lemma {:induction false} TextLaidOut(p: Plain, t: string)
    requires p.Valid() && IsPlain(t)
    ensures LaidOut(p, t, TypedAll(p, t))
    decreases |t|
  {
    if t == "" {
      NothingLaidOut(p);
    } else {
      var front, ch := t[..|t| - 1], t[|t| - 1];
      assert t == front + [ch];
      TextLaidOut(p, front);
      TypedMore(p, front, ch);
      TypedLaidOut(p, front, ch, TypedAll(p, front));
    }
  }

  lemma LastTyped(q: Plain, ch: char)
    requires q.Valid() && ch != ESC
    ensures TypedAll(q, [ch]) == Typed(q, ch)
  {
    assert [ch][1..] == "";
    assert TypedStart(q, [ch]) == (Typed(q, ch), 1);
  }

  /** Each character of a text keeps its cell. */
  lemma {:induction false} CellOfCharacter(p: Plain, t: string, i: nat)
    requires p.Valid() && i < |t| && t[i] != '\n'
    ensures CellAt(p, t, Position(80 * p.y + p.x, t[..i])) == Printed(p.color, t[i])
    decreases |t|
  {
    var front := t[..|t| - 1];
    if i == |front| {
      assert t[..i] == front;
    } else {
      assert front[..i] == t[..i];
      CellOfCharacter(p, front, i);
      PositionGrows(80 * p.y + p.x, front);
    }
  }

  lemma CellShown(p: Plain, t: string, q: Plain, gone: nat, at: nat)
    requires p.Valid() && q.Valid() && FromRow(p, t, q, gone) && gone <= at / 80 < gone + 25
    ensures q.rows[at / 80 - gone][at % 80] == CellAt(p, t, at)
  {
    assert q.rows[at / 80 - gone][at % 80] == CellAt(p, t, 80 * (at / 80 - gone + gone) + at % 80);
  }

  /** So character i of a text that is laid out appears in the row and column of its position, unless that row has left
      the screen. */
  lemma CharacterShown(p: Plain, t: string, q: Plain, i: nat, at: nat, gone: nat)
    requires p.Valid() && LaidOut(p, t, q) && i < |t| && t[i] != '\n'
    requires at == Position(80 * p.y + p.x, t[..i]) && gone == Gone(Position(80 * p.y + p.x, t)) <= at / 80
    ensures at / 80 - gone < 25 && q.rows[at / 80 - gone][at % 80] == Printed(p.color, t[i])
  {
    PositionGrows(80 * p.y + p.x, t);
    BeforeRow(at, Position(80 * p.y + p.x, t));
    CellShown(p, t, q, gone, at);
    CellOfCharacter(p, t, i);
  }

  lemma BeforeRow(at: nat, end: nat)
    requires at < end
    ensures at / 80 <= end / 80
  {
  }

  /** A backspace takes the cursor back and blanks the cell there, but never goes back to the row before. */
  lemma BackspaceBlanks(p: Plain)
    requires p.Valid()
    ensures p.x == 0 ==> TypedAll(p, [BACKSPACE]) == p
    ensures p.x > 0 ==>
      var row := p.rows[p.y][p.x - 1 := Cell(p.color, ' ')];
      TypedAll(p, [BACKSPACE]) == p.(x := p.x - 1, rows := p.rows[p.y := row])
  {
    LastTyped(p, BACKSPACE);
    if p.x > 0 { assert Inked(p.color, ' ') == Cell(p.color, ' '); }
  }

  // ----- Colour codes -----

  /** What a colour code's character stands for: a digit in base 16, or the original colour. */
  lemma ColorDigits(ch: char, orig: Nibble)
    ensures forall d | 0 <= d < 16 ::
      (ch == "0123456789abcdef"[d] || ch == "0123456789ABCDEF"[d]) ==> ColorCode(ch, orig) == d
    ensures ColorCode('-', orig) == orig
    ensures ColorCode(ch, orig) == -1 <==> ch !in "0123456789abcdefABCDEF-"
  {
    DigitOf(ch);
  }

  lemma DigitOf(ch: char)
    ensures ch in "0123456789" <==> '0' <= ch <= '9'
    ensures ch in "abcdef" <==> 'a' <= ch <= 'f'
    ensures ch in "ABCDEF" <==> 'A' <= ch <= 'F'
    ensures "0123456789abcdefABCDEF-" == "0123456789" + "abcdef" + "ABCDEF" + "-"
  {
    if '0' <= ch <= '9' { assert "0123456789"[ch as int - '0' as int] == ch; }
    if 'a' <= ch <= 'f' { assert "abcdef"[ch as int - 'a' as int] == ch; }
    if 'A' <= ch <= 'F' { assert "ABCDEF"[ch as int - 'A' as int] == ch; }
  }

  /** Whether a string starts with a colour code. */
  predicate StartsCode(str: string) {
    && |str| >= 4 && str[0] == ESC && str[2] in "0123456789abcdefABCDEF-"
    && ((str[1] == '[' && str[3] == ']') || (str[1] == '{' && str[3] == '}'))
  }

  /** An escape that starts no colour code writes nothing, and what follows it is printed. */
  lemma EscapeAlone(p: Plain, str: string)
    requires p.Valid() && str != "" && str[0] == ESC && !StartsCode(str)
    ensures TypedAll(p, str) == TypedAll(p, str[1..])
  {
    if |str| >= 4 { ColorDigits(str[2], if str[1] == '[' then p.base.fg else p.base.bg); }
    assert TypedStart(p, str) == (p, 1);
  }
}
