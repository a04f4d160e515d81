/** The VGA text terminal: an 80x25 cell array that shows the tail of an unbounded log. */
module Terminal {
  import opened Bytes
  import opened Decimal

  const WIDTH: nat := 80
  const HEIGHT: nat := 25
  const CELLS: nat := 2000
  const RESERVED: nat := 6 // header rows
  const COLOR: Byte := 7         // light grey on black
  const PROMPT_COLOR: Byte := 11 // light cyan on black
  const PROMPT: string := "snsx> "

  datatype Cell = Cell(glyph: char, color: Byte)

  const BLANK: Cell := Cell(' ', COLOR)

  // ---------- The log ----------

  type Line = seq<Cell>

  function BlankLine(): (l: Line)
    ensures |l| == 80 && forall c :: 0 <= c < 80 ==> l[c] == BLANK
  {
    seq(80, _ => BLANK)
  }

  /** Everything ever written below the header; the last line is the current one. */
  datatype Log = Log(lines: seq<Line>, column: nat) {
    ghost predicate Valid() {
      0 < |lines| && column <= 80 && forall i :: 0 <= i < |lines| ==> |lines[i]| == 80
    }

    function Last(): Line
      requires lines != []
    {
      lines[|lines| - 1]
    }

    function WithLast(l: Line): Log
      requires lines != []
    {
      this.(lines := lines[|lines| - 1 := l])
    }
  }

  function EmptyLog(): (g: Log)
    ensures g.Valid()
  {
    Log([BlankLine()], 0)
  }

  function NewLine(g: Log): (h: Log)
    requires g.Valid()
    ensures h.Valid()
  {
    Log(g.lines + [BlankLine()], 0)
  }

  /** One cell written at the cursor, which moves on. */
  function Place(g: Log, cell: Cell): (h: Log)
    requires g.Valid() && g.column < 80
    ensures h.Valid()
  {
    g.WithLast(g.Last()[g.column := cell]).(column := g.column + 1)
  }

  function Put(g: Log, ch: char): (h: Log)
    requires g.Valid()
    ensures h.Valid()
  {
    if ch == '\n' then NewLine(g)
    else if ch == '\r' then g.(column := 0)
    else Place(if g.column >= 80 then NewLine(g) else g, Cell(ch, COLOR))
  }

  function PutAll(g: Log, text: string): (h: Log)
    requires g.Valid()
    ensures h.Valid()
  {
    if text == "" then g else Put(PutAll(g, text[..|text| - 1]), text[|text| - 1])
  }

  lemma PutAllSnoc(g: Log, text: string, ch: char)
    requires g.Valid()
    ensures PutAll(g, text + [ch]) == Put(PutAll(g, text), ch)
  {
    assert (text + [ch])[..|text|] == text;
  }

  lemma PutAllOne(g: Log, ch: char)
    requires g.Valid()
    ensures PutAll(g, [ch]) == Put(g, ch)
  {
    assert [ch][..0] == "";
  }

  function Backspace(g: Log): (h: Log)
    requires g.Valid()
    ensures h.Valid()
  {
    if g.column == 0 then g
    else g.WithLast(g.Last()[g.column - 1 := BLANK]).(column := g.column - 1)
  }

  function PutPrompt(g: Log, n: nat): (h: Log)
    requires g.Valid() && n <= |PROMPT| && g.column + n <= 80
    ensures h.Valid() && h.column == g.column + n
  {
    if n == 0 then g else Place(PutPrompt(g, n - 1), Cell(PROMPT[n - 1], PROMPT_COLOR))
  }

  // ---------- Wrapping is invisible ----------

  /** The log as one endless tape of cells: where the cursor is, and what each cell holds. */
  function Position(g: Log): int
    requires g.Valid()
  {
    80 * (|g.lines| - 1) + g.column
  }

  function TapeCell(g: Log, p: nat): Cell
    requires g.Valid()
  {
    if p / 80 < |g.lines| then g.lines[p / 80][p % 80] else BLANK
  }

  /** A plain character goes to the tape cell under the cursor and nowhere else, whether or
      not the line was full. */
  lemma PlainCharOnTape(g: Log, ch: char)
    requires g.Valid() && ch != '\n' && ch != '\r'
    ensures Position(Put(g, ch)) == Position(g) + 1
    ensures TapeCell(Put(g, ch), Position(g)) == Cell(ch, 7)
    ensures forall p: nat :: p != Position(g) ==> TapeCell(Put(g, ch), p) == TapeCell(g, p)
  {
    var n, at := |g.lines|, Position(g);
    if g.column < 80 {
      assert at / 80 == n - 1 && at % 80 == g.column;
    } else {
      assert at / 80 == n && at % 80 == 0;
    }
    forall p: nat | p != at ensures TapeCell(Put(g, ch), p) == TapeCell(g, p) {
      assert p == 80 * (p / 80) + p % 80 && at == 80 * (at / 80) + at % 80;
    }
  }

  /** The erase key goes back by one tape cell and blanks it, and stays at the start of a row. */
  lemma ErasedOnTape(g: Log)
    requires g.Valid()
    ensures Position(Backspace(g)) == Position(g) - (if g.column == 0 then 0 else 1)
    ensures g.column > 0 ==> TapeCell(Backspace(g), Position(g) - 1) == Cell(' ', 7)
    ensures forall p: nat :: (g.column > 0 ==> p != Position(g) - 1) ==> TapeCell(Backspace(g), p) == TapeCell(g, p)
  {
    var n, at := |g.lines|, Position(g) - 1;
    if g.column > 0 {
      assert at / 80 == n - 1 && at % 80 == g.column - 1;
      forall p: nat | p != at ensures TapeCell(Backspace(g), p) == TapeCell(g, p) {
        assert p == 80 * (p / 80) + p % 80 && at == 80 * (at / 80) + at % 80;
      }
    }
  }

  /** A newline goes to the start of the next row, a carriage return to the start of this one;
      neither changes a cell. */
  lemma BreaksOnTape(g: Log)
    requires g.Valid()
    ensures Position(Put(g, '\n')) == 80 * |g.lines| && Put(g, '\n').column == 0
    ensures Position(Put(g, '\r')) == 80 * (|g.lines| - 1) && Put(g, '\r').column == 0
    ensures forall p: nat :: TapeCell(Put(g, '\n'), p) == TapeCell(g, p)
    ensures forall p: nat :: TapeCell(Put(g, '\r'), p) == TapeCell(g, p)
  {}

  /** Erasing a plain character just written leaves the cursor where it was and its cell blank,
      even when the character had wrapped. */
  lemma EraseUndoesPlain(g: Log, ch: char)
    requires g.Valid() && ch != '\n' && ch != '\r'
    ensures Position(Backspace(Put(g, ch))) == Position(g)
    ensures TapeCell(Backspace(Put(g, ch)), Position(g)) == Cell(' ', 7)
    ensures forall p: nat :: p != Position(g) ==> TapeCell(Backspace(Put(g, ch)), p) == TapeCell(g, p)
  {
    PlainCharOnTape(g, ch);
    ErasedOnTape(Put(g, ch));
    assert Put(g, ch).column > 0;
    hide Position, TapeCell, Put, Backspace;
  }

  lemma OnTheTape(g: Log)
    requires g.Valid()
    ensures 0 <= Position(g)
  {}

  /** A text without breaks fills the tape from the cursor on, however often it wraps. */
  lemma {:induction false} TextOnTape(g: Log, text: string)
    requires g.Valid() && '\n' !in text && '\r' !in text
    ensures Position(PutAll(g, text)) == Position(g) + |text|
    ensures forall k :: 0 <= k < |text| ==> TapeCell(PutAll(g, text), Position(g) + k) == Cell(text[k], 7)
    ensures forall p: nat :: p < Position(g) || Position(g) + |text| <= p ==> TapeCell(PutAll(g, text), p) == TapeCell(g, p)
    decreases |text|
  {
    hide Position, TapeCell, Put;
    if text != "" {
      var front := text[..|text| - 1];
      TextOnTape(g, front);
      PlainCharOnTape(PutAll(g, front), text[|front|]);
      OnTheTape(g);
      forall k | 0 <= k < |text| ensures TapeCell(PutAll(g, text), Position(g) + k) == Cell(text[k], 7) {
        assert k < |front| ==> Position(g) + k != Position(g) + |front|;
      }
    }
  }

  // ---------- What the screen shows ----------

  /** Row r below the header: the last 19 lines of the log, blank while there are fewer. */
  function Shown(g: Log, r: nat): Line
    requires g.Valid() && r < 19
  {
    var first := if |g.lines| <= 19 then 0 else |g.lines| - 19;
    if first + r < |g.lines| then g.lines[first + r] else BlankLine()
  }

  function CursorRow(g: Log): nat
    requires g.Valid()
  {
    if |g.lines| <= 19 then 5 + |g.lines| else 24
  }

  /** The cell at screen position p below the header. */
  function Pixel(g: Log, p: nat): Cell
    requires g.Valid() && 480 <= p < 2000
  {
    var r := (p - 480) / 80;
    assert r < 19;
    Shown(g, r)[(p - 480) % 80]
  }

  ghost predicate Shows(cells: seq<Cell>, g: Log)
    requires g.Valid()
  {
    |cells| == CELLS && forall p :: 480 <= p < 2000 ==> cells[p] == Pixel(g, p)
  }

  /** Placing a cell changes one screen cell: the one at the cursor. */
  lemma LastLineOnScreen(g: Log, l: Line, p: nat)
    requires g.Valid() && |l| == 80 && 480 <= p < 2000
    ensures Pixel(g.WithLast(l), p) == if p / 80 == CursorRow(g) then l[p % 80] else Pixel(g, p)
    ensures p / 80 == CursorRow(g) ==> Pixel(g, p) == g.Last()[p % 80]
  {
    assert (p - 480) / 80 == p / 80 - 6 && (p - 480) % 80 == p % 80;
  }

  /** A new line either uncovers a blank row or moves every row up by one. */
  lemma NewLineOnScreen(g: Log, p: nat)
    requires g.Valid() && 480 <= p < 2000
    ensures Pixel(NewLine(g), p) ==
      if CursorRow(g) < 24 then Pixel(g, p)
      else if p < 1920 then Pixel(g, p + 80)
      else BLANK
  {
    assert (p + 80 - 480) / 80 == (p - 480) / 80 + 1 && (p + 80 - 480) % 80 == (p - 480) % 80;
  }

  /** The cursor column does not show. */
  lemma ColumnOffScreen(cells: seq<Cell>, g: Log, column: nat)
    requires g.Valid() && column <= 80 && Shows(cells, g)
    ensures Shows(cells, g.(column := column))
  {
    assert forall p :: 480 <= p < 2000 ==> Pixel(g.(column := column), p) == Pixel(g, p);
  }

  /** A row of the fixed header. */
  datatype HeaderRow = HeaderRow(fill: Byte, color: Byte, text: string) {
    /** Each row is filled with one color, then its text is written from column 2 on. */
    function CellAt(c: nat): Cell {
      if 2 <= c < 2 + |text| then Cell(text[c - 2], color) else Cell(' ', fill)
    }
  }

  /** Two columns of margin, the text, and the fill to the right of it. */
  lemma HeaderRowSpelled(row: HeaderRow)
    ensures row.CellAt(0) == row.CellAt(1) == Cell(' ', row.fill)
    ensures forall k :: 0 <= k < |row.text| ==> row.CellAt(k + 2) == Cell(row.text[k], row.color)
    ensures forall c: nat :: |row.text| + 2 <= c ==> row.CellAt(c) == Cell(' ', row.fill)
  {}

  ghost predicate ShowsHeader(cells: seq<Cell>, header: seq<HeaderRow>) {
    |cells| == CELLS && |header| == RESERVED
    && forall p :: 0 <= p < 480 ==> cells[p] == header[p / 80].CellAt(p % 80)
  }

  class Terminal {
    const vga: array<Cell>
    var row: nat
    var column: nat
    var color: Byte
    var reservedRows: nat
    ghost var log: Log

    /** The rows below the header show the tail of the log, with the cursor on its last line. */
    ghost predicate Valid()
      reads this, vga
    {
      && vga.Length == CELLS && reservedRows == RESERVED && color == COLOR
      && log.Valid() && column == log.column && row == CursorRow(log)
      && Shows(vga[..], log)
    }

    constructor (header: seq<HeaderRow>)
      requires |header| == RESERVED
      ensures Valid() && fresh(vga) && log == EmptyLog() && ShowsHeader(vga[..], header)
    {
      vga := new Cell[CELLS](_ => BLANK);
      row, column, color, reservedRows, log := 0, 0, 0, 0, EmptyLog();
      new;
      Init(header);
    }

    method PutEntryAt(character: char, color: Byte, x: nat, y: nat)
      requires vga.Length == CELLS && x < WIDTH && y < HEIGHT
      modifies vga
      ensures vga[..] == old(vga[..])[80 * y + x := Cell(character, color)]
    {
      vga[y * 80 + x] := Cell(character, color);
    }

    method FillLine(row: nat, color: Byte)
      requires vga.Length == CELLS && row < HEIGHT
      modifies vga
      ensures forall p :: 0 <= p < 2000 ==> vga[p] == if p / 80 == row then Cell(' ', color) else old(vga[p])
    {
      for column := 0 to WIDTH
        invariant forall p :: 0 <= p < 2000 ==>
          vga[p] == if 80 * row <= p < 80 * row + column then Cell(' ', color) else old(vga[p])
      {
        PutEntryAt(' ', color, column, row);
      }
    }

    method WriteAt(row: nat, column: nat, color: Byte, text: string)
      requires vga.Length == CELLS && row < HEIGHT
      modifies vga
      ensures forall p :: 0 <= p < 2000 ==>
        vga[p] == if p / 80 == row && column <= p % 80 < column + |text| then Cell(text[p % 80 - column], color)
                  else old(vga[p])
    {
      var i := 0;
      while i < |text| && column + i < WIDTH
        invariant i <= |text|
        invariant forall p :: 0 <= p < 2000 ==>
          vga[p] == if p / 80 == row && column <= p % 80 < column + i then Cell(text[p % 80 - column], color)
                    else old(vga[p])
      {
        PutEntryAt(text[i], color, column + i, row);
        i := i + 1;
      }
    }

    method Clear()
      requires vga.Length == CELLS
      modifies this`row, this`column, vga
      ensures row == 0 && column == 0
      ensures forall p :: 0 <= p < 2000 ==> vga[p] == Cell(' ', color)
    {
      for r := 0 to HEIGHT
        invariant forall p :: 0 <= p < 80 * r ==> vga[p] == Cell(' ', color)
      {
        FillLine(r, color);
      }
      row, column := 0, 0;
    }

    method DrawHeader(header: seq<HeaderRow>)
      requires vga.Length == CELLS && |header| == RESERVED
      modifies this`row, this`column, this`reservedRows, vga
      ensures reservedRows == RESERVED && row == RESERVED && column == 0
      ensures ShowsHeader(vga[..], header)
      ensures forall p :: 480 <= p < 2000 ==> vga[p] == old(vga[p])
    {
      reservedRows := RESERVED;
      for r := 0 to RESERVED
        invariant reservedRows == RESERVED
        invariant forall p :: 0 <= p < 80 * r ==> vga[p] == header[p / 80].CellAt(p % 80)
        invariant forall p :: 480 <= p < 2000 ==> vga[p] == old(vga[p])
      {
        FillLine(r, header[r].fill);
        WriteAt(r, 2, header[r].color, header[r].text);
      }
      row, column := reservedRows, 0;
    }

    method Init(header: seq<HeaderRow>)
      requires vga.Length == CELLS && |header| == RESERVED
      modifies this, vga
      ensures Valid() && log == EmptyLog() && ShowsHeader(vga[..], header)
    {
      color := COLOR;
      reservedRows := 0;
      Clear();
      DrawHeader(header);
      log := EmptyLog();
    }

    method Scroll()
      requires vga.Length == CELLS && reservedRows == RESERVED && color == COLOR
      modifies this`row, this`column, vga
      ensures row == 24 && column == 0
      ensures vga[..480] == old(vga[..480])
      ensures forall p :: 480 <= p < 2000 ==> vga[p] == if p < 1920 then old(vga[p + 80]) else BLANK
    {
      for r := reservedRows to HEIGHT - 1
        invariant forall p :: 0 <= p < 2000 ==> vga[p] == if 480 <= p < 80 * r then old(vga[p + 80]) else old(vga[p])
      {
        for c := 0 to WIDTH
          invariant forall p :: 0 <= p < 2000 ==>
            vga[p] == if 480 <= p < 80 * r + c then old(vga[p + 80]) else old(vga[p])
        {
          vga[r * 80 + c] := vga[(r + 1) * 80 + c];
        }
      }
      FillLine(HEIGHT - 1, color);
      row, column := HEIGHT - 1, 0;
    }

    method Newline()
      requires Valid()
      modifies this`row, this`column, this`log, vga
      ensures Valid() && log == NewLine(old(log))
      ensures vga[..480] == old(vga[..480])
    {
      hide Pixel;
      column := 0;
      row := row + 1;
      if row >= HEIGHT {
        Scroll();
      }
      forall p | 480 <= p < 2000 ensures vga[p] == Pixel(NewLine(log), p) {
        NewLineOnScreen(log, p);
      }
      log := NewLine(log);
    }

    /** Write one cell on the cursor's row. */
    method PutOnRow(character: char, cellColor: Byte, x: nat)
      requires Valid() && x < WIDTH
      modifies this`log, vga
      ensures Valid() && log == old(log).WithLast(old(log).Last()[x := Cell(character, cellColor)])
      ensures vga[..480] == old(vga[..480])
    {
      hide Pixel;
      PutEntryAt(character, cellColor, x, row);
      ghost var l := log.Last()[x := Cell(character, cellColor)];
      forall p | 480 <= p < 2000 ensures vga[p] == Pixel(log.WithLast(l), p) {
        LastLineOnScreen(log, l, p);
        assert p == 80 * (p / 80) + p % 80;
      }
      log := log.WithLast(l);
    }

    method WriteChar(character: char)
      requires Valid()
      modifies this`row, this`column, this`log, vga
      ensures Valid() && log == Put(old(log), character)
      ensures vga[..480] == old(vga[..480])
    {
      hide Pixel;
      if character == '\n' {
        Newline();
        return;
      }
      if character == '\r' {
        column := 0;
        ColumnOffScreen(vga[..], log, 0);
        log := log.(column := 0);
        return;
      }
      if column >= WIDTH {
        Newline();
      }
      PutOnRow(character, color, column);
      column := column + 1;
      ColumnOffScreen(vga[..], log, column);
      log := log.(column := column);
    }

    method Write(text: string)
      requires Valid()
      modifies this`row, this`column, this`log, vga
      ensures Valid() && log == PutAll(old(log), text)
      ensures vga[..480] == old(vga[..480])
    {
      for i := 0 to |text|
        invariant Valid() && log == PutAll(old(log), text[..i])
        invariant vga[..480] == old(vga[..480])
      {
        assert text[..i + 1][..i] == text[..i];
        WriteChar(text[i]);
      }
      assert text[..|text|] == text;
    }

    method WriteLn(text: string)
      requires Valid()
      modifies this`row, this`column, this`log, vga
      ensures Valid() && log == NewLine(PutAll(old(log), text))
      ensures vga[..480] == old(vga[..480])
    {
      Write(text);
      WriteChar('\n');
    }

    method BackspaceKey()
      requires Valid()
      modifies this`column, this`log, vga
      ensures Valid() && log == Backspace(old(log))
      ensures vga[..480] == old(vga[..480])
    {
      hide Pixel;
      if column == 0 {
        return;
      }
      column := column - 1;
      ColumnOffScreen(vga[..], log, column);
      log := log.(column := column);
      PutOnRow(' ', color, column);
    }

    /** terminal_prompt: unlike ordinary text it does not wrap. */
    method Prompt()
      requires Valid() && column + |PROMPT| <= WIDTH
      modifies this`column, this`log, vga
      ensures Valid() && log == PutPrompt(old(log), |PROMPT|)
      ensures vga[..480] == old(vga[..480])
    {
      hide Pixel;
      for i := 0 to |PROMPT|
        invariant Valid() && log == PutPrompt(old(log), i)
        invariant vga[..480] == old(vga[..480])
      {
        PutOnRow(PROMPT[i], PROMPT_COLOR, column);
        column := column + 1;
        ColumnOffScreen(vga[..], log, column);
        log := log.(column := column);
      }
    }

    /** The division loop of the decimal printers: the digits, last one first. */
    method CollectDigits(value: nat, buffer: array<char>) returns (count: nat)
      requires 0 < value && |Digits(value)| <= buffer.Length
      modifies buffer
      ensures count <= buffer.Length && Digits(value) == Reversed(buffer[..count])
    {
      var rest, index := value, 0;
      while rest > 0
        invariant index <= buffer.Length
        invariant Digits(value) == (if rest == 0 then "" else Digits(rest)) + Reversed(buffer[..index])
      {
        var digit := Digit(rest % 10);
        ghost var collected := buffer[..index];
        ghost var front := if rest < 10 then "" else Digits(rest / 10);
        ReversedAppend(collected, digit);
        assert Digits(rest) + Reversed(collected) == front + ([digit] + Reversed(collected));
        buffer[index] := digit;
        assert buffer[..index + 1] == collected + [digit];
        index := index + 1;
        rest := rest / 10;
      }
      count := index;
    }

    /** Both decimal printers: collect the digits, then write them back to front. */
    method WriteDecimal(value: nat, buffer: array<char>)
      requires Valid() && |Digits(value)| <= buffer.Length
      modifies this`row, this`column, this`log, vga, buffer
      ensures Valid() && log == PutAll(old(log), Digits(value))
      ensures vga[..480] == old(vga[..480])
    {
      hide Shows, Put;
      if value == 0 {
        PutAllOne(log, '0');
        WriteChar('0');
        return;
      }
      var n := CollectDigits(value, buffer);
      ghost var digits := buffer[..n];
      var index := n;
      assert digits[n..] == "";
      while index > 0
        invariant index <= n && buffer[..n] == digits
        invariant Valid() && log == PutAll(old(log), Reversed(digits[index..]))
        invariant vga[..480] == old(vga[..480])
      {
        index := index - 1;
        assert digits[index..][1..] == digits[index + 1..];
        PutAllSnoc(old(log), Reversed(digits[index + 1..]), digits[index]);
        WriteChar(buffer[index]);
      }
      assert digits[0..] == digits;
    }

    method WriteUint(value: Word32)
      requires Valid()
      modifies this`row, this`column, this`log, vga
      ensures Valid() && log == PutAll(old(log), Digits(value))
      ensures vga[..480] == old(vga[..480])
    {
      var buffer := new char[11];
      WordDigits();
      WriteDecimal(value, buffer);
    }

    method WriteUint64(value: Word)
      requires Valid()
      modifies this`row, this`column, this`log, vga
      ensures Valid() && log == PutAll(old(log), Digits(value))
      ensures vga[..480] == old(vga[..480])
    {
      var buffer := new char[21];
      WordDigits();
      WriteDecimal(value, buffer);
    }
  }

  // ---------- Whole sessions ----------

  datatype Input = Char(ch: char) | Erase

  function LogOf(g: Log, inputs: seq<Input>): (h: Log)
    requires g.Valid()
    ensures h.Valid()
  {
    if inputs == [] then g else
    var before := LogOf(g, inputs[..|inputs| - 1]);
    match inputs[|inputs| - 1]
    case Char(ch) => Put(before, ch)
    case Erase => Backspace(before)
  }

  /** From terminal_init, for every sequence of characters and backspaces: the header stays,
      the rows below it show the tail of the log, and the cursor stays on the screen. */
  method Session(header: seq<HeaderRow>, inputs: seq<Input>) returns (t: Terminal)
    requires |header| == RESERVED
    ensures t.vga.Length == CELLS && ShowsHeader(t.vga[..], header)
    ensures Shows(t.vga[..], LogOf(EmptyLog(), inputs))
    ensures t.row == CursorRow(LogOf(EmptyLog(), inputs)) < HEIGHT && t.column <= WIDTH
  {
    hide Shows, LogOf, Put, Backspace;
    t := new Terminal(header);
    ghost var top := t.vga[..480];
    LogOfNothing(EmptyLog());
    for i := 0 to |inputs|
      invariant t.Valid() && t.log == LogOf(EmptyLog(), inputs[..i])
      invariant t.vga[..480] == top
      invariant fresh(t) && fresh(t.vga)
    {
      LogOfNext(EmptyLog(), inputs, i);
      match inputs[i] {
        case Char(ch) => t.WriteChar(ch);
        case Erase => t.BackspaceKey();
      }
    }
    assert inputs[..|inputs|] == inputs;
    assert forall p :: 0 <= p < 480 ==> t.vga[p] == t.vga[..480][p] == top[p];
  }

  lemma LogOfNothing(g: Log)
    requires g.Valid()
    ensures LogOf(g, []) == g
  {}

  lemma LogOfNext(g: Log, inputs: seq<Input>, i: nat)
    requires g.Valid() && i < |inputs|
    ensures LogOf(g, inputs[..i + 1]) ==
      match inputs[i]
      case Char(ch) => Put(LogOf(g, inputs[..i]), ch)
      case Erase => Backspace(LogOf(g, inputs[..i]))
  {
    assert inputs[..i + 1][..i] == inputs[..i];
  }
}
