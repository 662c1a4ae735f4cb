/** The keyboard line editor of handle_keyboard_input. */
module LineEditor {
  import opened Bytes
  import opened Names
  import opened Terminal

  const BACKSPACE: byte := 0x08
  const ENTER: byte := 0x0A
  const CAPITAL_U: byte := 0x55
  const AT: byte := 0x40
  const PROMPT_END: seq<byte> := [0x20, 0x2F, 0x3E, 0x20]

  function Prompt(user: seq<byte>, host: seq<byte>): (p: seq<byte>)
    ensures |p| == |user| + |host| + 5
  {
    user + [AT] + host + PROMPT_END
  }

  /** The terminal, input_buffer and input_buffer_index. */
  datatype Line = Line(screen: Screen, buffer: seq<byte>, index: nat)

  /** A key, and what the command run on Enter does: terminal operations, and what it leaves in the
      input buffer. */
  datatype Press = Press(key: byte, reaction: seq<Op>, scratch: seq<byte>)

  predicate Allowed(k: Press) {
    k.key != CAPITAL_U && |k.scratch| == 256
  }

  /** Characters accepted and not deleted since the prompt. */
  function Typed(l: Line): seq<byte>
    requires l.index <= |l.buffer|
  {
    l.buffer[..l.index]
  }

  function Erased(s: Screen): Screen
    requires Proper(s) && s.col > 0
  {
    WithEntry(s.(col := s.col - 1), SPACE)
  }

  function AfterPress(prompt: seq<byte>, l: Line, k: Press): Line
    requires Ready(prompt, l) && Allowed(k)
  {
    if k.key == 0 then l
    else
      var b := l.buffer[l.index := NUL];
      if k.key == BACKSPACE then
        if l.screen.col > |prompt| then BackspaceHasInput(prompt, l); Line(Erased(l.screen), b, l.index - 1)
        else l.(buffer := b)
      else if k.key == ENTER then
        Line(AfterPuts(AfterNewline(Run(l.screen, k.reaction)), prompt), k.scratch, 0)
      else if l.index < 255 then
        Line(AfterPut(l.screen, k.key), b[l.index := k.key], l.index + 1)
      else l.(buffer := b)
  }

  /** The column follows from the number of typed characters, and the text in the buffer is whole. */
  predicate Ready(prompt: seq<byte>, l: Line) {
    && |prompt| < 80
    && Proper(l.screen) && |l.buffer| == 256 && l.index <= 255
    && l.screen.col == (|prompt| + l.index) % 80
    && NoNul(l.buffer[..l.index])
  }

  /** A permitted backspace always has a character to delete. */
  lemma BackspaceHasInput(prompt: seq<byte>, l: Line)
    requires Ready(prompt, l) && l.screen.col > |prompt|
    ensures l.index >= 1
  {
  }

  // ---------------------------------------------------------------------
  // The editor in place
  // ---------------------------------------------------------------------

  /** Runs terminal operations, as a command does. */
  method Perform(console: Console, ops: seq<Op>)
    requires Proper(console.Abs())
    modifies console, console.buffer
    ensures console.Abs() == Run(old(console.Abs()), ops)
  {
    for i := 0 to |ops|
      invariant Proper(console.Abs()) && console.Abs() == Run(old(console.Abs()), ops[..i])
    {
      match ops[i] {
        case Initialize => console.Initialize();
        case Put(c) => console.PutChar(c);
        case Newline => console.Newline();
        case SetColor(color) => console.color := color;
      }
      assert ops[..i + 1][..i] == ops[..i];
    }
    assert ops[..|ops|] == ops;
  }

  class Editor {
    const console: Console
    const buffer: array<byte>
    const user: seq<byte>
    const host: seq<byte>
    var index: nat

    ghost function Abs(): Line
      reads this, buffer, console, console.buffer
    {
      Line(console.Abs(), buffer[..], index)
    }

    constructor (console: Console, buffer: array<byte>, user: seq<byte>, host: seq<byte>)
      ensures this.console == console && this.buffer == buffer && this.user == user && this.host == host
      ensures index == 0
    {
      this.console, this.buffer, this.user, this.host, this.index := console, buffer, user, host, 0;
    }

    method ShowPrompt()
      requires Proper(console.Abs())
      modifies console, console.buffer
      ensures console.Abs() == AfterPuts(AfterNewline(old(console.Abs())), Prompt(user, host))
    {
      console.Newline();
      ghost var s := console.Abs();
      console.Write(user);
      console.Write([AT]);
      console.Write(host);
      console.Write(PROMPT_END);
      PutsAppend(s, user, [AT]);
      PutsAppend(s, user + [AT], host);
      PutsAppend(s, user + [AT] + host, PROMPT_END);
    }

    /** handle_keyboard_input, without the key 'U'. */
    method Key(k: Press)
      requires Ready(Prompt(user, host), Abs()) && Allowed(k)
      modifies this`index, buffer, console, console.buffer
      ensures Abs() == AfterPress(Prompt(user, host), old(Abs()), k)
    {
      var data := k.key;
      if data == 0 { return; }
      BackspaceHasInputIf(Prompt(user, host), Abs());
      buffer[index] := NUL;
      if data == BACKSPACE {
        if console.column > |user| + |host| + 5 {
          console.column := console.column - 1;
          index := index - 1;
          console.PutEntryAt(SPACE, console.color, console.column, console.row);
        }
      } else if data == ENTER {
        forall i | 0 <= i < 256 { buffer[i] := k.scratch[i]; }
        Perform(console, k.reaction);
        ShowPrompt();
        index := 0;
        assert buffer[..] == k.scratch;
      } else if index < 255 {
        buffer[index] := data;
        index := index + 1;
        console.PutChar(data);
      }
    }
  }

  lemma BackspaceHasInputIf(prompt: seq<byte>, l: Line)
    requires Ready(prompt, l)
    ensures l.screen.col > |prompt| ==> l.index >= 1
  {
    if l.screen.col > |prompt| { BackspaceHasInput(prompt, l); }
  }

  lemma {:induction false} PutsAppend(s: Screen, a: seq<byte>, b: seq<byte>)
    requires Proper(s)
    ensures AfterPuts(s, a + b) == AfterPuts(AfterPuts(s, a), b)
    decreases |b|
  {
    if |b| == 0 {
      assert a + b == a;
    } else {
      PutsAppend(s, a, b[..|b| - 1]);
      assert (a + b)[..|a + b| - 1] == a + b[..|b| - 1];
    }
  }

  // ---------------------------------------------------------------------
  // Runs
  // ---------------------------------------------------------------------

  /** The typed text as a stack: a key pushes, backspace pops while the cursor is right of the prompt
      on its row, Enter starts over. */
  function Edited(width: nat, typed: seq<byte>, key: byte): seq<byte> {
    if key == 0 then typed
    else if key == BACKSPACE then
      if (width + |typed|) % 80 > width && |typed| > 0 then typed[..|typed| - 1] else typed
    else if key == ENTER then []
    else if |typed| < 255 then typed + [key]
    else typed
  }

  ghost predicate BlankBeyond(s: Screen)
    requires Proper(s)
  {
    forall p :: Cursor(s) <= p < 2000 ==> s.cells[p].ch == SPACE
  }

  /** The cursor's row shows the end of prompt and typed text, and blanks after it. */
  ghost predicate Echoed(prompt: seq<byte>, l: Line) {
    && Ready(prompt, l) && BlankBeyond(l.screen)
    && RowShows(l.screen, prompt + Typed(l))
  }

  ghost predicate RowShows(s: Screen, text: seq<byte>)
    requires Proper(s)
  {
    s.col <= |text| &&
    forall p :: 80 * s.row <= p < Cursor(s) ==> s.cells[p].ch == text[|text| - (Cursor(s) - p)]
  }

  lemma StepBlankBeyond(s: Screen, op: Op)
    requires Proper(s) && BlankBeyond(s)
    ensures BlankBeyond(Terminal.After(s, op))
  {
  }

  lemma {:induction false} RunBlankBeyond(s: Screen, ops: seq<Op>)
    requires Proper(s) && BlankBeyond(s)
    ensures BlankBeyond(Run(s, ops))
    decreases |ops|
  {
    if |ops| > 0 {
      RunBlankBeyond(s, ops[..|ops| - 1]);
      StepBlankBeyond(Run(s, ops[..|ops| - 1]), ops[|ops| - 1]);
    }
  }

  /** A character at the cursor extends what the row shows. */
  lemma PutShows(s: Screen, text: seq<byte>, c: byte)
    requires Proper(s) && BlankBeyond(s) && RowShows(s, text)
    ensures BlankBeyond(AfterPut(s, c)) && RowShows(AfterPut(s, c), text + [c])
    ensures AfterPut(s, c).col == (s.col + 1) % 80
  {
    StepBlankBeyond(s, Put(c));
    hide BlankBeyond, Blank;
    var r, t := AfterPut(s, c), text + [c];
    if s.row < 24 && s.col < 79 {
      forall p | 80 * r.row <= p < Cursor(r) ensures r.cells[p].ch == t[|t| - (Cursor(r) - p)] {
        assert p < Cursor(s) ==> s.cells[p].ch == text[|text| - (Cursor(s) - p)];
      }
    }
  }

  lemma {:induction false} PromptShows(s: Screen, prompt: seq<byte>)
    requires Proper(s) && BlankBeyond(s) && s.col == 0 && |prompt| < 80
    ensures var r := AfterPuts(s, prompt);
            BlankBeyond(r) && r.col == |prompt| && RowShows(r, prompt)
    decreases |prompt|
  {
    if |prompt| > 0 {
      var front := prompt[..|prompt| - 1];
      PromptShows(s, front);
      PutShows(AfterPuts(s, front), front, prompt[|prompt| - 1]);
      assert prompt == front + [prompt[|prompt| - 1]];
    }
  }

  lemma FreshLine(prompt: seq<byte>, s: Screen, buffer: seq<byte>)
    requires Proper(s) && BlankBeyond(s) && |prompt| < 80 && |buffer| == 256
    requires s.col == |prompt| && RowShows(s, prompt)
    ensures Echoed(prompt, Line(s, buffer, 0))
  {
    hide BlankBeyond, RowShows;
    assert Typed(Line(s, buffer, 0)) == [];
    assert prompt + [] == prompt;
  }

  /** A fresh prompt is an empty line, whatever was on the screen. */
  lemma PromptStartsLine(prompt: seq<byte>, s: Screen, buffer: seq<byte>)
    requires Proper(s) && BlankBeyond(s) && |prompt| < 80 && |buffer| == 256
    ensures Echoed(prompt, Line(AfterPuts(AfterNewline(s), prompt), buffer, 0))
  {
    hide BlankBeyond, RowShows, AfterPuts, Blank, Echoed;
    StepBlankBeyond(s, Newline);
    PromptShows(AfterNewline(s), prompt);
    FreshLine(prompt, AfterPuts(AfterNewline(s), prompt), buffer);
  }

  lemma ErasedShows(s: Screen, text: seq<byte>)
    requires Proper(s) && BlankBeyond(s) && RowShows(s, text) && s.col > 0
    ensures BlankBeyond(Erased(s)) && RowShows(Erased(s), text[..|text| - 1])
  {
    var r := Erased(s);
    forall p | 80 * r.row <= p < Cursor(r) ensures r.cells[p].ch == text[..|text| - 1][|text| - 1 - (Cursor(r) - p)] {
      assert s.cells[p].ch == text[|text| - (Cursor(s) - p)];
    }
  }

  lemma BackspaceKeepsLine(prompt: seq<byte>, l: Line)
    requires Echoed(prompt, l) && l.screen.col > |prompt|
    ensures l.index >= 1
    ensures var r := Line(Erased(l.screen), l.buffer[l.index := NUL], l.index - 1);
            Echoed(prompt, r) && Typed(r) == Typed(l)[..l.index - 1]
  {
    hide BlankBeyond, RowShows;
    BackspaceHasInput(prompt, l);
    ErasedShows(l.screen, prompt + Typed(l));
    var r := Line(Erased(l.screen), l.buffer[l.index := NUL], l.index - 1);
    assert Typed(r) == Typed(l)[..l.index - 1];
    assert (prompt + Typed(l))[..|prompt + Typed(l)| - 1] == prompt + Typed(r);
  }

  lemma CharacterKeepsLine(prompt: seq<byte>, l: Line, c: byte)
    requires Echoed(prompt, l) && l.index < 255 && c != NUL
    ensures var r := Line(AfterPut(l.screen, c), l.buffer[l.index := NUL][l.index := c], l.index + 1);
            Echoed(prompt, r) && Typed(r) == Typed(l) + [c]
  {
    hide BlankBeyond, RowShows, AfterPut;
    PutShows(l.screen, prompt + Typed(l), c);
    var r := Line(AfterPut(l.screen, c), l.buffer[l.index := NUL][l.index := c], l.index + 1);
    assert Typed(r) == Typed(l) + [c];
    assert prompt + Typed(r) == prompt + Typed(l) + [c];
  }

  lemma IgnoredKeepsLine(prompt: seq<byte>, l: Line)
    requires Echoed(prompt, l)
    ensures var r := l.(buffer := l.buffer[l.index := NUL]);
            Echoed(prompt, r) && Typed(r) == Typed(l)
  {
    assert l.buffer[l.index := NUL][..l.index] == Typed(l);
    hide BlankBeyond, RowShows;
  }

  /** Every key keeps the line whole and on screen, and edits the typed text as a stack. */
  lemma PressKeepsLine(prompt: seq<byte>, l: Line, k: Press)
    requires Echoed(prompt, l) && Allowed(k)
    ensures Echoed(prompt, AfterPress(prompt, l, k))
    ensures Typed(AfterPress(prompt, l, k)) == Edited(|prompt|, Typed(l), k.key)
  {
    hide BlankBeyond, RowShows, AfterPut, AfterPuts, Run;
    if k.key == ENTER {
      RunBlankBeyond(l.screen, k.reaction);
      PromptStartsLine(prompt, Run(l.screen, k.reaction), k.scratch);
    } else if k.key == BACKSPACE && l.screen.col > |prompt| {
      BackspaceKeepsLine(prompt, l);
    } else if k.key != 0 && k.key != BACKSPACE && l.index < 255 {
      CharacterKeepsLine(prompt, l, k.key);
    } else {
      IgnoredKeepsLine(prompt, l);
    }
  }

  /** At Enter the buffer holds the typed text as a NUL-terminated string. */
  lemma EnterSeesTyped(prompt: seq<byte>, l: Line)
    requires Ready(prompt, l)
    ensures CString(l.buffer[l.index := NUL]) == Typed(l)
  {
    var b := l.buffer[l.index := NUL];
    assert b[..l.index] == Typed(l);
    assert forall i :: 0 <= i < l.index ==> b[i] == Typed(l)[i];
    CStringIs(b, l.index);
  }

  ghost function AfterPresses(prompt: seq<byte>, l: Line, ks: seq<Press>): Line
    requires Echoed(prompt, l) && forall i :: 0 <= i < |ks| ==> Allowed(ks[i])
    ensures Echoed(prompt, AfterPresses(prompt, l, ks))
    decreases |ks|
  {
    if |ks| == 0 then l
    else
      var m := AfterPresses(prompt, l, ks[..|ks| - 1]);
      PressKeepsLine(prompt, m, ks[|ks| - 1]);
      AfterPress(prompt, m, ks[|ks| - 1])
  }

  function EditedAll(width: nat, typed: seq<byte>, ks: seq<Press>): seq<byte>
    decreases |ks|
  {
    if |ks| == 0 then typed else Edited(width, EditedAll(width, typed, ks[..|ks| - 1]), ks[|ks| - 1].key)
  }

  /** Over every run of keys: the buffer is the stack of accepted keystrokes, at most 255 of them,
      the cursor column follows from their number, and the row shows them. */
  lemma {:induction false} RunKeepsLine(prompt: seq<byte>, l: Line, ks: seq<Press>)
    requires Echoed(prompt, l) && forall i :: 0 <= i < |ks| ==> Allowed(ks[i])
    ensures var r := AfterPresses(prompt, l, ks);
            && Echoed(prompt, r)
            && Typed(r) == EditedAll(|prompt|, Typed(l), ks) && |Typed(r)| <= 255
            && r.screen.col == (|prompt| + |Typed(r)|) % 80
            && CString(r.buffer[r.index := NUL]) == Typed(r)
    decreases |ks|
  {
    hide BlankBeyond, RowShows, AfterPress, Edited, CString;
    if |ks| > 0 {
      RunKeepsLine(prompt, l, ks[..|ks| - 1]);
      PressKeepsLine(prompt, AfterPresses(prompt, l, ks[..|ks| - 1]), ks[|ks| - 1]);
    }
    EnterSeesTyped(prompt, AfterPresses(prompt, l, ks));
  }

  // ---------------------------------------------------------------------
  // What reaches the screen
  // ---------------------------------------------------------------------

  /** The prompt as it reads. */
  lemma PromptReads(user: string, host: string)
    requires Ascii(user) && Ascii(host)
    ensures Ascii(user + "@" + host + " /> ")
    ensures Prompt(Text(user), Text(host)) == Text(user + "@" + host + " /> ")
  {
  }

  /** On Enter the command's operations reach the terminal, then a line break and the prompt. */
  lemma EnterShows(prompt: seq<byte>, l: Line, k: Press)
    requires Ready(prompt, l) && Allowed(k) && k.key == ENTER
    ensures AfterPress(prompt, l, k).screen == Run(l.screen, k.reaction + [Op.Newline] + Puts(prompt))
  {
    hide AfterPut, AfterNewline, Run;
    var s := Run(l.screen, k.reaction);
    RunAppend(l.screen, k.reaction + [Op.Newline], Puts(prompt));
    RunAppend(l.screen, k.reaction, [Op.Newline]);
    RunOne(s, Op.Newline);
    RunPuts(AfterNewline(s), prompt);
  }

  /** So the screen after Enter shows what the command wrote, then the prompt. */
  lemma EnterIsFaithful(prompt: seq<byte>, l: Line, k: Press, page: Page)
    requires Ready(prompt, l) && Allowed(k) && k.key == ENTER && Faithful(l.screen, page)
    ensures var ops := k.reaction + [Op.Newline] + Puts(prompt);
            Faithful(AfterPress(prompt, l, k).screen, Written(ops, page))
  {
    hide AfterPress, Faithful, Run, Written;
    EnterShows(prompt, l, k);
    RunIsFaithful(l.screen, k.reaction + [Op.Newline] + Puts(prompt), page);
  }

  /** A character that is accepted is echoed; other keys but Enter and backspace show nothing. */
  lemma CharacterShows(prompt: seq<byte>, l: Line, k: Press)
    requires Ready(prompt, l) && Allowed(k) && k.key !in {ENTER, BACKSPACE}
    ensures AfterPress(prompt, l, k).screen ==
              Run(l.screen, if k.key != 0 && l.index < 255 then [Op.Put(k.key)] else [])
  {
    RunOne(l.screen, Op.Put(k.key));
    hide AfterPut;
  }

  /** Backspace blanks the cell before the cursor, in the colour in use, and moves there. */
  lemma BackspaceShows(prompt: seq<byte>, l: Line, k: Press)
    requires Ready(prompt, l) && Allowed(k) && k.key == BACKSPACE && l.screen.col > |prompt|
    ensures var s, r := l.screen, AfterPress(prompt, l, k).screen;
            && Cursor(r) == Cursor(s) - 1 && r.row == s.row && r.color == s.color
            && r.cells == s.cells[Cursor(s) - 1 := Cell(SPACE, s.color)]
  {
  }

  /** The keys. */
  lemma KeysAre()
    ensures ENTER == '\n' as int && CAPITAL_U == 'U' as int && BACKSPACE == 8
  {
  }

  /** Characters only. */
  predicate Plain(k: Press) {
    k.key !in {0, BACKSPACE, ENTER}
  }

  /** Of characters typed on an empty line the first 255 are kept, which with the NUL fill the buffer. */
  lemma {:induction false} TypingKeeps(width: nat, ks: seq<Press>, keys: seq<byte>)
    requires |keys| == |ks| && forall i :: 0 <= i < |ks| ==> Plain(ks[i]) && keys[i] == ks[i].key
    ensures EditedAll(width, [], ks) == if |keys| <= 255 then keys else keys[..255]
    decreases |ks|
  {
    if |ks| > 0 {
      var n := |ks| - 1;
      TypingKeeps(width, ks[..n], keys[..n]);
      assert Plain(ks[n]);
      assert keys == keys[..n] + [keys[n]] && (n >= 255 ==> keys[..n][..255] == keys[..255]);
    }
  }

  /** Backspace takes a character back exactly when the cursor is right of the prompt's width on its row; the
      characters at the beginning of a continued row cannot be taken back. */
  lemma BackspaceUndoesIff(width: nat, typed: seq<byte>, key: byte)
    requires width < 80 && |typed| < 255 && key !in {0, BACKSPACE, ENTER}
    ensures Edited(width, Edited(width, typed, key), BACKSPACE) == typed <==> (width + |typed| + 1) % 80 > width
  {
    assert (typed + [key])[..|typed|] == typed;
  }
}
