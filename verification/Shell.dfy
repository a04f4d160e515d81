/** The shell's line editor: which commands it runs for a stream of keys, and when the
    screen shows what is in its buffer. */
module Shell {
  import opened Bytes
  import opened Keyboard
  import opened Terminal

  const CAPACITY: nat := 128 // with the terminator

  // ---------- Editing ----------

  datatype Editor = Editor(buffer: string, executed: seq<string>)

  /** The effect of one popped character on the buffer and the commands run so far. */
  function Key(e: Editor, ch: char): Editor {
    if ch == '\0' then e
    else if ch == BACKSPACE then
      if e.buffer == "" then e else e.(buffer := e.buffer[..|e.buffer| - 1])
    else if ch == '\n' then
      Editor("", if e.buffer == "" then e.executed else e.executed + [e.buffer])
    else if |e.buffer| + 1 >= CAPACITY then e
    else e.(buffer := e.buffer + [ch])
  }

  function Keys(e: Editor, keys: string): Editor {
    if keys == "" then e else Key(Keys(e, keys[..|keys| - 1]), keys[|keys| - 1])
  }

  /** A single line as the editor leaves it. */
  function EditedLine(line: string): string {
    Keys(Editor("", []), line).buffer
  }

  function LineEnd(keys: string): (n: nat)
    ensures n <= |keys| && (n < |keys| ==> keys[n] == '\n')
    ensures forall i :: 0 <= i < n ==> keys[i] != '\n'
  {
    if keys == "" || keys[0] == '\n' then 0 else 1 + LineEnd(keys[1..])
  }

  /** The commands of a stream of keys, line by line: every complete line, edited on its own,
      unless that leaves nothing. */
  function Commands(keys: string): seq<string>
    decreases |keys|
  {
    var n := LineEnd(keys);
    if n == |keys| then [] else
    (if EditedLine(keys[..n]) == "" then [] else [EditedLine(keys[..n])]) + Commands(keys[n + 1..])
  }

  lemma {:induction false} KeysSplit(e: Editor, a: string, b: string)
    ensures Keys(e, a + b) == Keys(Keys(e, a), b)
    decreases |b|
  {
    if b == "" {
      assert a + b == a;
    } else {
      var front := b[..|b| - 1];
      assert (a + b)[..|a + b| - 1] == a + front;
      KeysSplit(e, a, front);
    }
  }

  /** Editing one line neither runs a command nor depends on those already run. */
  lemma {:induction false} LineIsLocal(e: Editor, line: string)
    requires e.buffer == "" && '\n' !in line
    ensures Keys(e, line) == Editor(EditedLine(line), e.executed)
    decreases |line|
  {
    if line != "" {
      LineIsLocal(e, line[..|line| - 1]);
      LineIsLocal(Editor("", []), line[..|line| - 1]);
    }
  }

  /** What one complete line does: run the edited line unless it is empty. */
  lemma LineRuns(e: Editor, line: string, rest: string)
    requires e.buffer == "" && '\n' !in line
    ensures
      var after := Editor("", e.executed + (if EditedLine(line) == "" then [] else [EditedLine(line)]));
      Keys(e, line + ['\n'] + rest) == Keys(after, rest)
  {
    hide EditedLine;
    KeysSplit(e, line + ['\n'], rest);
    assert (line + ['\n'])[..|line|] == line;
    LineIsLocal(e, line);
    assert e.executed + [] == e.executed;
  }

  /** The editor's run over a whole stream executes exactly the commands of its lines. */
  lemma {:induction false} RunsCommands(e: Editor, keys: string)
    requires e.buffer == ""
    ensures Keys(e, keys).executed == e.executed + Commands(keys)
    decreases |keys|
  {
    hide Keys, Key, EditedLine;
    var n := LineEnd(keys);
    var line := keys[..n];
    if n == |keys| {
      LineIsLocal(e, line);
      assert line == keys;
    } else {
      var rest := keys[n + 1..];
      AroundIndex(keys, n);
      LineRuns(e, line, rest);
      var ran := if EditedLine(line) == "" then [] else [EditedLine(line)];
      RunsCommands(Editor("", e.executed + ran), rest);
      ConcatAssociates(e.executed, ran, Commands(rest));
    }
  }

  lemma {:induction false} BufferBelowCapacity(keys: string)
    ensures |Keys(Editor("", []), keys).buffer| < CAPACITY
    decreases |keys|
  {
    if keys != "" {
      BufferBelowCapacity(keys[..|keys| - 1]);
    }
  }

  /** Neither the buffer nor any command outgrows the 127 characters before the terminator. */
  lemma {:induction false} BufferBounded(keys: string)
    ensures |Keys(Editor("", []), keys).buffer| < CAPACITY
    ensures forall c :: c in Commands(keys) ==> 0 < |c| < CAPACITY
    decreases |keys|
  {
    hide Keys;
    BufferBelowCapacity(keys);
    var n := LineEnd(keys);
    if n < |keys| {
      BufferBelowCapacity(keys[..n]);
      BufferBounded(keys[n + 1..]);
    }
  }

  /** A line of ordinary characters is kept as typed, up to 127 of them. */
  lemma {:induction false} PlainLineKept(line: string)
    requires '\0' !in line && BACKSPACE !in line && '\n' !in line
    ensures EditedLine(line) == if |line| <= 127 then line else line[..127]
    decreases |line|
  {
    if line != "" {
      var front := line[..|line| - 1];
      PlainLineKept(front);
      LineIsLocal(Editor("", []), front);
      assert line == front + [line[|front|]];
    }
  }

  /** The erase key takes back the last character, whatever was typed before; on a full buffer
      it takes the 127th, because the character was not taken in. */
  lemma EraseTakesBack(line: string, ch: char)
    requires '\n' !in line && ch != '\0' && ch != BACKSPACE && ch != '\n'
    ensures
      EditedLine(line + [ch, BACKSPACE]) == if |EditedLine(line)| <= 126 then EditedLine(line) else EditedLine(line)[..126]
    ensures EditedLine(line + [BACKSPACE]) == if EditedLine(line) == "" then "" else EditedLine(line)[..|EditedLine(line)| - 1]
  {
    LineIsLocal(Editor("", []), line);
    BufferBelowCapacity(line);
    KeysSplit(Editor("", []), line, [ch, BACKSPACE]);
    KeysSplit(Editor("", []), line, [BACKSPACE]);
    assert [ch, BACKSPACE][..1] == [ch] && [ch][..0] == "" && [BACKSPACE][..0] == "";
  }

  // ---------- What the screen shows while a line is edited ----------

  /** The echo of one key other than newline, given the buffer before it. */
  function Echo(g: Log, buffer: string, ch: char): (h: Log)
    requires g.Valid() && ch != '\n'
    ensures h.Valid()
  {
    if ch == '\0' then g
    else if ch == BACKSPACE then (if buffer == "" then g else Backspace(g))
    else if |buffer| + 1 >= CAPACITY then g
    else Put(g, ch)
  }

  function EchoAll(g: Log, line: string): (h: Log)
    requires g.Valid() && '\n' !in line
    ensures h.Valid()
  {
    if line == "" then g
    else Echo(EchoAll(g, line[..|line| - 1]), EditedLine(line[..|line| - 1]), line[|line| - 1])
  }

  lemma EchoExtends(g: Log, line: string, ch: char, executed: seq<string>)
    requires g.Valid() && '\n' !in line && ch != '\n'
    ensures EchoAll(g, line + [ch]) == Echo(EchoAll(g, line), EditedLine(line), ch)
    ensures EditedLine(line + [ch]) == Key(Editor(EditedLine(line), executed), ch).buffer
  {
    assert (line + [ch])[..|line|] == line;
    LineIsLocal(Editor("", []), line);
  }

  /** A pop from an empty ring changes neither the buffer, nor the commands, nor the screen. */
  lemma EmptyPopIgnored(g: Log, e: Editor, line: string)
    requires g.Valid() && '\n' !in line
    ensures Keys(e, line + ['\0']) == Keys(e, line)
    ensures EchoAll(g, line + ['\0']) == EchoAll(g, line)
  {
    assert (line + ['\0'])[..|line|] == line;
  }

  /** A line of ordinary characters is echoed as far as it is kept, and no further. */
  lemma {:induction false} PlainLineEchoed(g: Log, line: string)
    requires g.Valid() && '\0' !in line && BACKSPACE !in line && '\n' !in line
    ensures EchoAll(g, line) == PutAll(g, if |line| <= 127 then line else line[..127])
    decreases |line|
  {
    if line != "" {
      var front := line[..|line| - 1];
      PlainLineEchoed(g, front);
      PlainLineKept(front);
      if |line| <= 127 {
        assert line == front + [line[|front|]];
      } else {
        assert line[..127] == front[..127];
      }
    }
  }

  /** So the cells behind the cursor are the kept characters, however often they wrap. */
  lemma PlainLineOnTape(g: Log, line: string, k: nat)
    requires g.Valid() && '\0' !in line && BACKSPACE !in line && '\n' !in line && '\r' !in line
    requires k < |line| && k < 127
    ensures TapeCell(EchoAll(g, line), Position(g) + k) == Cell(line[k], 7)
    ensures Position(EchoAll(g, line)) == Position(g) + if |line| <= 127 then |line| else 127
  {
    PlainLineEchoed(g, line);
    TextOnTape(g, if |line| <= 127 then line else line[..127]);
  }

  /** The last line shows the prompt followed by the buffer, with the cursor behind it. */
  ghost predicate ShowsInput(g: Log, buffer: string)
    requires g.Valid()
  {
    && g.column == 6 + |buffer| <= 80
    && forall c :: 0 <= c < 80 ==>
         g.Last()[c] ==
           if c < 6 then Cell(PROMPT[c], PROMPT_COLOR)
           else if c < 6 + |buffer| then Cell(buffer[c - 6], COLOR)
           else BLANK
  }

  /** The greatest length the buffer has had while the line was edited. */
  function Peak(line: string): nat {
    if line == "" then 0 else
    var n, before := |EditedLine(line)|, Peak(line[..|line| - 1]);
    if n > before then n else before
  }

  /** Once the text has wrapped, the current line holds plain cells only. */
  ghost predicate Wrapped(g: Log)
    requires g.Valid()
  {
    forall c :: 0 <= c < 80 ==> g.Last()[c].color == COLOR
  }

  /** What is true of the screen after a line with the given edited text and peak. */
  ghost predicate OnTrack(g: Log, buffer: string, peak: nat)
    requires g.Valid()
  {
    && |buffer| <= peak
    && (peak <= 74 ==> ShowsInput(g, buffer))
    && (peak > 74 ==> Wrapped(g))
  }

  lemma ErasureKeepsTrack(g: Log, buffer: string, peak: nat)
    requires g.Valid() && OnTrack(g, buffer, peak) && buffer != ""
    ensures OnTrack(Backspace(g), buffer[..|buffer| - 1], peak)
  {}

  lemma CharacterKeepsTrack(g: Log, buffer: string, peak: nat, ch: char)
    requires g.Valid() && OnTrack(g, buffer, peak) && ch != '\n' && ch != '\r'
    ensures OnTrack(Put(g, ch), buffer + [ch], if |buffer| + 1 > peak then |buffer| + 1 else peak)
  {}

  lemma {:induction false} EchoKeepsTrack(g: Log, line: string)
    requires g.Valid() && ShowsInput(g, "") && '\n' !in line && '\r' !in line
    ensures OnTrack(EchoAll(g, line), EditedLine(line), Peak(line))
    decreases |line|
  {
    hide OnTrack, ShowsInput, Put, Backspace;
    if line == "" {
      NothingOffTrack(g);
    } else {
      var front, ch := line[..|line| - 1], line[|line| - 1];
      var shown, buffer := EchoAll(g, front), EditedLine(front);
      EchoKeepsTrack(g, front);
      LineIsLocal(Editor("", []), front);
      LongestYet(shown, buffer, Peak(front));
      if ch == BACKSPACE && buffer != "" {
        ErasureKeepsTrack(shown, buffer, Peak(front));
      } else if ch != '\0' && ch != BACKSPACE && |buffer| + 1 < CAPACITY {
        CharacterKeepsTrack(shown, buffer, Peak(front), ch);
      }
    }
  }

  lemma NothingOffTrack(g: Log)
    requires g.Valid() && ShowsInput(g, "")
    ensures OnTrack(g, "", 0)
  {}

  lemma LongestYet(g: Log, buffer: string, peak: nat)
    requires g.Valid() && OnTrack(g, buffer, peak)
    ensures |buffer| <= peak
  {}

  /** While a line is edited, the screen's last line shows prompt and buffer exactly as long
      as the buffer has never outgrown the 74 columns behind the prompt: after that, not
      even erasing brings it back. */
  lemma InputShownIffNeverWrapped(g: Log, line: string)
    requires g.Valid() && ShowsInput(g, "") && '\n' !in line && '\r' !in line
    ensures ShowsInput(EchoAll(g, line), EditedLine(line)) <==> Peak(line) <= 74
  {
    EchoKeepsTrack(g, line);
    if Peak(line) > 74 {
      assert EchoAll(g, line).Last()[0].color == COLOR;
    }
  }

  /** The x key, n times. */
  function Xs(n: nat): (line: string)
    ensures |line| == n && forall i :: 0 <= i < n ==> line[i] == 'x'
  {
    seq(n, _ => 'x')
  }

  lemma {:induction false} XsStay(n: nat)
    requires n < CAPACITY
    ensures EditedLine(Xs(n)) == Xs(n) && Peak(Xs(n)) == n
  {
    if n > 0 {
      XsStay(n - 1);
      LineIsLocal(Editor("", []), Xs(n - 1));
      assert Xs(n)[..n - 1] == Xs(n - 1) && Xs(n) == Xs(n - 1) + ['x'];
    }
  }

  /** Of 75 characters typed and one erased, 74 are in the buffer, but the screen does not
      show them behind the prompt. */
  lemma ErasingDoesNotUnwrap(g: Log)
    requires g.Valid() && ShowsInput(g, "")
    ensures
      var line := Xs(75) + [BACKSPACE];
      EditedLine(line) == Xs(74) && !ShowsInput(EchoAll(g, line), EditedLine(line))
  {
    hide ShowsInput, EchoAll;
    var line := Xs(75) + [BACKSPACE];
    assert line[..75] == Xs(75) && Xs(75)[..74] == Xs(74);
    XsStay(75);
    LineIsLocal(Editor("", []), Xs(75));
    InputShownIffNeverWrapped(g, line);
  }

  /** What has been typed since the last newline. */
  function CurrentLine(keys: string): (line: string)
    ensures '\n' !in line && forall c :: c in line ==> c in keys
  {
    if keys == "" || keys[|keys| - 1] == '\n' then ""
    else CurrentLine(keys[..|keys| - 1]) + [keys[|keys| - 1]]
  }

  /** From key presses to commands: when no key was refused and everything has been popped,
      the editor has executed the commands of what was typed; and the line in progress never
      holds a carriage return. */
  lemma TypedCommandsRun(ring: seq<char>, es: seq<Event>)
    requires |ring| == RING
    ensures
      var s := Run(Start(ring), es);
      && (NoneRefused(Start(ring), es) && Contents(s.ring) == "" ==>
            Keys(Editor("", []), s.popped).executed == Commands(TypedText(es).0))
      && '\r' !in CurrentLine(s.popped)
  {
    TypedIsDelivered(ring, es);
    PoppedArePrintable(ring, es);
    var s := Run(Start(ring), es);
    RunsCommands(Editor("", []), s.popped);
    assert [] + Commands(s.popped) == Commands(s.popped) && s.popped + "" == s.popped;
  }

  ghost predicate FreshLine(g: Log)
    requires g.Valid()
  {
    g.column == 0 && g.Last() == BlankLine()
  }

  lemma {:induction false} PromptCells(g: Log, n: nat)
    requires g.Valid() && FreshLine(g) && n <= |PROMPT|
    ensures forall c :: 0 <= c < 80 ==>
      PutPrompt(g, n).Last()[c] == if c < n then Cell(PROMPT[c], PROMPT_COLOR) else BLANK
  {
    if n > 0 {
      PromptCells(g, n - 1);
    }
  }

  lemma PromptOnFreshLine(g: Log)
    requires g.Valid() && FreshLine(g)
    ensures ShowsInput(PutPrompt(g, |PROMPT|), "")
  {
    PromptCells(g, |PROMPT|);
  }

  /** The prompt on a fresh line: "snsx> " in light cyan, then plain blanks. */
  lemma PromptSpelled(g: Log)
    requires g.Valid() && FreshLine(g)
    ensures
      var h := PutPrompt(g, 6);
      && h.column == 6 && |h.lines| == |g.lines|
      && h.Last()[..6] == [Cell('s', 11), Cell('n', 11), Cell('s', 11), Cell('x', 11), Cell('>', 11), Cell(' ', 11)]
      && forall c :: 6 <= c < 80 ==> h.Last()[c] == Cell(' ', 7)
  {
    PromptCells(g, 6);
    PromptKeepsLines(g, 6);
  }

  lemma {:induction false} PromptKeepsLines(g: Log, n: nat)
    requires g.Valid() && n <= |PROMPT| && g.column + n <= 80
    ensures |PutPrompt(g, n).lines| == |g.lines|
  {
    if n > 0 {
      PromptKeepsLines(g, n - 1);
    }
  }

  lemma NothingTyped(g: Log)
    requires g.Valid()
    ensures EchoAll(g, "") == g && EditedLine("") == "" && Keys(Editor("", []), "") == Editor("", [])
    ensures forall e, executed :: Key(Editor(e, executed), '\n').buffer == ""
  {}

  lemma NextKey(keys: string, i: nat)
    requires i < |keys|
    ensures Keys(Editor("", []), keys[..i + 1]) == Key(Keys(Editor("", []), keys[..i]), keys[i])
    ensures CurrentLine(keys[..i + 1]) == if keys[i] == '\n' then "" else CurrentLine(keys[..i]) + [keys[i]]
  {
    assert keys[..i + 1][..i] == keys[..i];
  }

  // ---------- The shell ----------

  /** What a command does to the terminal: print lines, or start the screen over. */
  datatype Response = Printed(text: string) | Cleared(header: seq<HeaderRow>)

  /** Printed text ends its last line; a cleared screen has its six header rows. */
  predicate EndsLine(r: Response) {
    match r
    case Printed(text) => text == "" || text[|text| - 1] == '\n'
    case Cleared(header) => |header| == RESERVED
  }

  class Shell {
    const terminal: Terminal
    const inputBuffer: array<char>
    const respond: string -> Response
    var inputLength: nat
    ghost var executed: seq<string>

    ghost predicate Valid()
      reads this, terminal, terminal.vga
    {
      && terminal.Valid() && inputBuffer.Length == CAPACITY && inputLength < CAPACITY
      && forall command :: EndsLine(respond(command))
    }

    constructor (terminal: Terminal, respond: string -> Response)
      requires terminal.Valid() && forall command :: EndsLine(respond(command))
      ensures Valid() && fresh(inputBuffer) && this.terminal == terminal && this.respond == respond
      ensures inputLength == 0 && executed == []
    {
      this.terminal, this.respond := terminal, respond;
      inputBuffer := new char[CAPACITY];
      inputLength, executed := 0, [];
    }

    ghost function Editing(): Editor
      requires Valid()
      reads this, terminal, terminal.vga, inputBuffer
    {
      Editor(inputBuffer[..inputLength], executed)
    }

    /** shell_execute, seen from the terminal. */
    method Execute(command: string)
      requires Valid() && FreshLine(terminal.log)
      modifies this`executed, terminal, terminal.vga
      ensures Valid() && FreshLine(terminal.log)
      ensures executed == old(executed) + [command]
    {
      executed := executed + [command];
      assert EndsLine(respond(command));
      match respond(command) {
        case Printed(text) => terminal.Write(text);
        case Cleared(header) => terminal.Init(header);
      }
    }

    /** One turn of the loop of shell_run. */
    method HandleKey(character: char)
      requires Valid()
      modifies this`inputLength, this`executed, inputBuffer, terminal, terminal.vga
      ensures Valid() && Editing() == Key(old(Editing()), character)
      ensures character != '\n' ==> terminal.log == Echo(old(terminal.log), old(Editing()).buffer, character)
      ensures character == '\n' ==> ShowsInput(terminal.log, "")
    {
      if character == '\0' {
        return;
      }
      if character == BACKSPACE {
        if inputLength > 0 {
          inputLength := inputLength - 1;
          terminal.BackspaceKey();
        }
        return;
      }
      if character == '\n' {
        inputBuffer[inputLength] := '\0';
        terminal.WriteChar('\n');
        if inputLength > 0 {
          Execute(inputBuffer[..inputLength]);
        }
        inputLength := 0;
        PromptOnFreshLine(terminal.log);
        terminal.Prompt();
        return;
      }
      if inputLength + 1 >= CAPACITY {
        return;
      }
      inputBuffer[inputLength] := character;
      inputLength := inputLength + 1;
      terminal.WriteChar(character);
    }

    /** shell_run over any stream of characters: the commands executed are those of the
        stream's lines, and the screen shows the unfinished one unless it has wrapped. A
        carriage return would spoil that, but no key types one (PoppedArePrintable). */
    method Run(keys: string)
      requires Valid() && inputLength == 0 && executed == []
      modifies this`inputLength, this`executed, inputBuffer, terminal, terminal.vga
      ensures Valid() && executed == Commands(keys)
      ensures Editing().buffer == EditedLine(CurrentLine(keys))
      ensures '\r' !in CurrentLine(keys) ==>
        (ShowsInput(terminal.log, Editing().buffer) <==> Peak(CurrentLine(keys)) <= 74)
    {
      hide Shows, Keys, Key, EditedLine, Echo, EchoAll, ShowsInput, Peak, Put, PutAll;
      terminal.WriteLn("SNSX ExOS is ready.");
      terminal.WriteLn("Type 'help' to explore the current kernel features.");
      terminal.WriteLn("");
      PromptOnFreshLine(terminal.log);
      terminal.Prompt();
      ghost var prompted := terminal.log;
      NothingTyped(prompted);
      for i := 0 to |keys|
        invariant Valid() && Editing() == Keys(Editor("", []), keys[..i])
        invariant prompted.Valid() && ShowsInput(prompted, "")
        invariant terminal.log == EchoAll(prompted, CurrentLine(keys[..i]))
        invariant Editing().buffer == EditedLine(CurrentLine(keys[..i]))
      {
        ghost var line := CurrentLine(keys[..i]);
        NextKey(keys, i);
        HandleKey(keys[i]);
        if keys[i] == '\n' {
          prompted := terminal.log;
          NothingTyped(prompted);
        } else {
          EchoExtends(prompted, line, keys[i], Keys(Editor("", []), keys[..i]).executed);
        }
      }
      assert keys[..|keys|] == keys;
      RunsCommands(Editor("", []), keys);
      if '\r' !in CurrentLine(keys) {
        InputShownIffNeverWrapped(prompted, CurrentLine(keys));
      }
    }
  }
}
