/** The console: handlers that change the line and paint the difference, and the loop that feeds them. */
module Consoles {
  import opened Numbers
  import opened Terminal
  import opened Keys
  import opened LineEditor
  import opened CommandQueue

  /** The colour sequences around the `>` that `pushCommand` logs before a command. */
  const COMMAND_MARK: seq<Byte> := [27, 91, 51, 50, 59, 49, 109, 62, 27, 91, 48, 109, 32]

  class Console {
    var buffer: Line
    var cursorCol: nat
    var history: seq<Line>
    var historyPos: int
    var draft: Line
    var retryCode: Code
    var commandQueue: seq<Line>
    var awaitingAutoComplete: bool
    var autoCompleteInput: Line
    var row: Row

    ghost function View(): Editor
      reads this
    {
      Editor(buffer, cursorCol, history, historyPos, draft, Behind(row.cells, |PROMPT| + |buffer|))
    }

    /** The fields make sense, whatever the row shows. */
    ghost predicate Sound()
      reads this
    {
      View().Valid() && row.Valid()
    }

    /** The row shows prompt, buffer and cursor. */
    ghost predicate Valid()
      reads this
    {
      View().Valid() && row == RowOf(View())
    }

    ghost predicate Holds(e: Editor)
      reads this
    {
      && buffer == e.buffer && cursorCol == e.cursorCol && history == e.history
      && historyPos == e.historyPos && draft == e.draft && row == RowOf(e)
    }

    lemma HoldingIsViewing(e: Editor)
      requires e.Valid() && Holds(e)
      ensures Valid() && View() == e && row.Valid()
    {
      RowShowsEditor(e);
    }

    lemma ValidRow()
      requires Valid()
      ensures row.Valid() && Holds(View())
    {
      RowShowsEditor(View());
    }

    /** The console right after `init`, when the first line (ending in a newline) has been logged. */
    constructor (line: seq<Byte>)
      requires line != [] && line[|line| - 1] == NEW_LINE
      ensures Valid() && View() == Editor([], 0, [], -1, [], [])
      ensures commandQueue == [] && retryCode == 0 && !awaitingAutoComplete
    {
      buffer, cursorCol, history, historyPos, draft := [], 0, [], -1, [];
      retryCode, commandQueue, awaitingAutoComplete, autoCompleteInput := 0, [], false, [];
      row := Row([], 0);
      new;
      Log(line);
    }

    // -------------------------------------------------------------- printing

    method PrintLine(line: Line)
      requires row.Valid()
      modifies `row
      ensures row.Valid() && row == Write(old(row), line)
    {
      NoEffect(row);
      hide Write, Put;
      for i := 0 to |line|
        invariant row.Valid() && row == Write(old(row), line[..i])
      {
        PrintOneMore(old(row), line, i);
        row := Put(row, line[i]);
      }
      assert line[..|line|] == line;
    }

    method Backspaces(n: nat)
      requires row.Valid() && n <= row.col
      modifies `row
      ensures row.Valid() && row == Back(old(row), n)
    {
      for i := 0 to n
        invariant row.Valid() && row == Back(old(row), i)
      {
        row := Put(row, BACK);
      }
    }

    /** Prints backspace, blank, backspace, `n` times. */
    method EraseBack(n: nat)
      requires row.Valid() && n <= row.col
      modifies `row
      ensures row.Valid() && row == EraseLeft(old(row), n)
    {
      EraseNothing(row);
      hide EraseLeft, Put;
      for i := 0 to n
        invariant row.Valid() && row == EraseLeft(old(row), i)
      {
        EraseOneMore(old(row), i);
        row := Put(row, BACK);
        row := Put(row, BLANK);
        row := Put(row, BACK);
      }
    }

    /** Prints the buffer from the cursor on and a blank, and goes back as far. */
    method RepaintRest()
      requires row.Valid() && cursorCol <= |buffer|
      modifies `row
      ensures row.Valid() && row == Back(Write(old(row), buffer[cursorCol..] + [BLANK]), |buffer| - cursorCol + 1)
    {
      hide Write, Back;
      PrintLine(buffer[cursorCol..]);
      PrintLine([BLANK]);
      WriteTwice(old(row), buffer[cursorCol..], [BLANK]);
      Backspaces(|buffer| - cursorCol + 1);
    }

    /** On a fresh row this paints just prompt, buffer and cursor. */
    method RedrawLine()
      requires row.Valid() && cursorCol <= |buffer|
      modifies `row
      ensures row.Valid() && row == Back(Write(old(row), PROMPT + buffer), |buffer| - cursorCol)
      ensures old(row) == Row([], 0) ==> row == Row(PROMPT + buffer, |PROMPT| + cursorCol)
    {
      PrintLine(PROMPT);
      PrintLine(buffer);
      WriteTwice(old(row), PROMPT, buffer);
      assert Write(Row([], 0), PROMPT + buffer) == Row(PROMPT + buffer, |PROMPT| + |buffer|);
      var numBack := |buffer| - cursorCol;
      Backspaces(numBack);
    }

    /** The row `Log` finds after printing `line`. */
    ghost function Logging(line: seq<Byte>): (r: Row)
      requires row.Valid()
      reads this
      ensures r.Valid()
    {
      PutAll(Put(EraseLine(row), RETURN), line)
    }

    /** Erases the row, prints the line and, on the row it ends on, the prompt and the buffer again. That is
        what `RedrawLine` paints on a fresh row, whatever the row was before, if the line ends in a newline. In
        general the row shows prompt, buffer and cursor again exactly if the line ends in the first column. */
    method Log(line: seq<Byte>)
      requires Sound()
      modifies `row
      ensures Sound()
      ensures row == Back(Write(old(Logging(line)), PROMPT + buffer), |buffer| - cursorCol)
      ensures Valid() <==> ColumnAfter(line) == 0
      ensures Valid() ==> View() == old(View()).(tail := Behind(old(Logging(line)).cells, |PROMPT + buffer|))
      ensures line != [] && line[|line| - 1] == NEW_LINE ==> Valid() && View() == Apply(old(View()), Logged)
    {
      ghost var after := Logging(line);
      assert after.col == ColumnAfter(line) by { PutAllColumn(Put(EraseLine(row), RETURN), line); }
      if line != [] && line[|line| - 1] == NEW_LINE { NewLineLeavesNothing(Put(EraseLine(row), RETURN), line); }
      PrintThenBack(after, PROMPT + buffer, |buffer| - cursorCol);
      hide PutAll, ColumnAfter, Write, Back;
      row := EraseLine(row);
      row := Put(row, RETURN);
      ghost var start := row;
      for i := 0 to |line|
        invariant row.Valid() && row == PutAll(start, line[..i])
      {
        PutAllOneMore(start, line, i);
        row := Put(row, line[i]);
      }
      assert line[..|line|] == line;
      RedrawLine();
      if after.col == 0 {
        HoldingIsViewing(old(View()).(tail := Behind(after.cells, |PROMPT + buffer|)));
      }
    }

    method PushCommand(input: Line)
      requires Sound()
      modifies `row, `commandQueue
      ensures Valid() && View() == Apply(old(View()), Logged)
      ensures commandQueue == old(commandQueue) + [input]
    {
      Log(COMMAND_MARK + input + [NEW_LINE]);
      commandQueue := commandQueue + [input];
    }

    // -------------------------------------------------------------- keys

    method OnNewLine()
      requires Valid()
      modifies `buffer, `cursorCol, `history, `historyPos, `row, `commandQueue
      ensures Valid() && View() == Press(old(View()), Enter)
      ensures commandQueue == old(commandQueue) + Submitted(old(View()), Enter)
    {
      ValidRow();
      if |buffer| > 0 {
        var bufferString := buffer;
        if |history| == 0 || history[0] != bufferString {
          history := [bufferString] + history;
          if |history| > HISTORY_LIMIT {
            history := history[..|history| - 1];
          }
        }
        assert history == Remember(old(history), bufferString);
        buffer := [];
        cursorCol := 0;
        historyPos := -1;
        PushCommand(bufferString);
      }
    }

    method OnBackspace()
      requires Valid()
      modifies `buffer, `cursorCol, `row
      ensures Valid() && View() == Press(old(View()), Backspace)
    {
      if cursorCol == 0 { return; }
      ghost var e := View();
      ValidRow();
      BackspacePaints(e);
      hide Write, Back, RowOf, EraseLeft;
      EraseBack(1);
      if cursorCol == |buffer| {
        buffer := buffer[..|buffer| - 1];
        cursorCol := cursorCol - 1;
      } else {
        cursorCol := cursorCol - 1;
        buffer := buffer[..cursorCol] + buffer[cursorCol + 1..];
        assert buffer[cursorCol..] == e.buffer[e.cursorCol..];
        RepaintRest();
      }
      HoldingIsViewing(Press(e, Backspace));
    }

    method OnChar(character: Cell)
      requires Valid()
      modifies `buffer, `cursorCol, `row
      ensures Valid() && View() == Press(old(View()), Char(character))
    {
      ghost var e := View();
      ValidRow();
      CharPaints(e, character);
      hide Write, Back, RowOf;
      PrintLine([character]);
      if cursorCol == |buffer| {
        assert e.buffer[e.cursorCol..] == [];
        NoEffect(row);
        buffer := buffer + [character];
      } else {
        buffer := buffer[..cursorCol] + [character] + buffer[cursorCol..];
        assert buffer[cursorCol + 1..] == e.buffer[e.cursorCol..];
        PrintLine(buffer[cursorCol + 1..]);
        Backspaces(|buffer| - (cursorCol + 1));
      }
      cursorCol := cursorCol + 1;
      HoldingIsViewing(Press(e, Char(character)));
    }

    method OnDelete()
      requires Valid()
      modifies `buffer, `row
      ensures Valid() && View() == Press(old(View()), Delete)
    {
      if cursorCol < |buffer| {
        ghost var e := View();
        ValidRow();
        DeletePaints(e);
        hide Write, Back, RowOf;
        buffer := buffer[..cursorCol] + buffer[cursorCol + 1..];
        assert buffer[cursorCol..] == e.buffer[e.cursorCol + 1..];
        RepaintRest();
        HoldingIsViewing(Press(e, Delete));
      }
    }

    /** Erases what is left of the cursor, and puts `line` there. */
    method ReplaceLine(line: Line)
      requires Valid()
      modifies `buffer, `cursorCol, `row
      ensures Valid() && View() == Show(old(View()), line)
    {
      ghost var e := View();
      ValidRow();
      ShowPaints(e, line);
      hide Write, EraseLeft, RowOf;
      EraseBack(cursorCol);
      buffer := line;
      cursorCol := |buffer|;
      PrintLine(line);
      HoldingIsViewing(Show(e, line));
    }

    method OnUp()
      requires Valid()
      modifies `buffer, `cursorCol, `historyPos, `draft, `row
      ensures Valid() && View() == Press(old(View()), Up)
    {
      if |history| > 0 {
        hide RowOf, Behind, Press, Show;
        ghost var e := View();
        UpShows(e);
        if historyPos == -1 {
          draft := buffer;
        }
        historyPos := historyPos + 1;
        if historyPos > |history| - 1 {
          historyPos := |history| - 1;
        }
        SameRow(View(), e);
        ReplaceLine(history[historyPos]);
      }
    }

    method OnDown()
      requires Valid()
      modifies `buffer, `cursorCol, `historyPos, `row
      ensures Valid() && View() == Press(old(View()), Down)
    {
      if |history| > 0 {
        hide RowOf, Behind, Press, Show;
        ghost var e := View();
        DownShows(e);
        historyPos := historyPos - 1;
        if historyPos < -1 {
          historyPos := -1;
        }
        SameRow(View(), e);
        if historyPos >= 0 {
          ReplaceLine(history[historyPos]);
        } else {
          ReplaceLine(draft);
        }
      }
    }

    method OnRight()
      requires Valid()
      modifies `cursorCol, `row
      ensures Valid() && View() == Press(old(View()), Right)
    {
      if cursorCol < |buffer| {
        ghost var e := View();
        ValidRow();
        ReprintMoves(e, cursorCol, cursorCol + 1);
        assert e.(cursorCol := cursorCol) == e && buffer[cursorCol..cursorCol + 1] == [buffer[cursorCol]];
        PrintLine([buffer[cursorCol]]);
        cursorCol := cursorCol + 1;
        HoldingIsViewing(Press(e, Right));
      }
    }

    method OnLeft()
      requires Valid()
      modifies `cursorCol, `row
      ensures Valid() && View() == Press(old(View()), Left)
    {
      if cursorCol > 0 {
        ghost var e := View();
        ValidRow();
        row := Put(row, BACK);
        cursorCol := cursorCol - 1;
        HoldingIsViewing(Press(e, Left));
      }
    }

    method OnHome()
      requires Valid()
      modifies `cursorCol, `row
      ensures Valid() && View() == Press(old(View()), Home)
    {
      ghost var e := View();
      ValidRow();
      PromptReprints(e);
      row := Put(row, RETURN);
      PrintLine(PROMPT);
      cursorCol := 0;
      HoldingIsViewing(Press(e, Home));
    }

    method OnEnd()
      requires Valid()
      modifies `cursorCol, `row
      ensures Valid() && View() == Press(old(View()), End)
    {
      ghost var e := View();
      ValidRow();
      PromptReprints(e);
      row := Put(row, RETURN);
      PrintLine(PROMPT);
      ReprintMoves(e, 0, |buffer|);
      assert buffer[0..|buffer|] == buffer;
      PrintLine(buffer);
      cursorCol := |buffer|;
      HoldingIsViewing(Press(e, End));
    }

    method OnEndTilde()
      requires Valid()
      modifies `cursorCol, `row
      ensures Valid() && View() == Press(old(View()), EndTilde)
    {
      ghost var e := View();
      ValidRow();
      ReprintMoves(e, cursorCol, |buffer|);
      assert e.(cursorCol := cursorCol) == e && buffer[cursorCol..|buffer|] == buffer[cursorCol..];
      PrintLine(buffer[cursorCol..]);
      cursorCol := |buffer|;
      HoldingIsViewing(Press(e, EndTilde));
    }

    // -------------------------------------------------------------- completion

    /** The console thread's half of a Tab: asks, and waits. */
    method BeginAutoComplete()
      modifies `awaitingAutoComplete, `autoCompleteInput
      ensures awaitingAutoComplete && autoCompleteInput == buffer
    {
      awaitingAutoComplete := true;
      autoCompleteInput := buffer;
    }

    /** The main thread's half: does nothing unless the console waits. */
    method RespondToAutoComplete(newBuffer: Line)
      requires Valid()
      modifies `awaitingAutoComplete, `buffer, `cursorCol, `row
      ensures Valid() && !awaitingAutoComplete
      ensures View() == if old(awaitingAutoComplete) then Apply(old(View()), Completed(newBuffer)) else old(View())
    {
      if !awaitingAutoComplete { return; }
      awaitingAutoComplete := false;
      ReplaceLine(newBuffer);
    }

    // -------------------------------------------------------------- the main thread's end of the queue

    /** Once per tick the main thread empties the queue: `resetlua` flags a reset and logs so, anything else
        goes to the hook, if there is one when its turn comes. */
    method DrainCommands(hooked: seq<bool>, notice: seq<Byte>) returns (delivered: seq<Line>, shouldReset: bool)
      requires Valid() && notice != [] && notice[|notice| - 1] == NEW_LINE && |hooked| == |commandQueue|
      modifies `commandQueue, `row
      ensures commandQueue == [] && (shouldReset <==> RESET_COMMAND in old(commandQueue))
      ensures delivered == Delivered(old(commandQueue), hooked)
      ensures Valid() && View() == if shouldReset then Apply(old(View()), Logged) else old(View())
    {
      assert Delivered([], []) == [];
      hide Delivered, RowOf, Behind, Write, Back, Logging, ColumnAfter, RESET_COMMAND;
      delivered, shouldReset := [], false;
      ghost var queue := commandQueue;
      var n := 0;
      while commandQueue != []
        invariant 0 <= n <= |queue| && commandQueue == queue[n..]
        invariant shouldReset <==> RESET_COMMAND in queue[..n]
        invariant delivered == Delivered(queue[..n], hooked[..n])
        invariant Valid() && View() == if shouldReset then Apply(old(View()), Logged) else old(View())
        decreases |commandQueue|
      {
        var front := commandQueue[0];
        TakenOneMore(queue, hooked, n);
        if front == RESET_COMMAND {
          shouldReset := true;
          commandQueue := commandQueue[1..];
          ValidRow();
          Log(notice);
        } else {
          if hooked[n] { delivered := delivered + [front]; }
          commandQueue := commandQueue[1..];
        }
        n := n + 1;
      }
      assert queue[..n] == queue && hooked[..n] == hooked;
    }

    // -------------------------------------------------------------- the loop

    /** The codes still to be acted on: the one pushed back, if any, and the rest of the input. */
    ghost function Ahead(input: seq<Code>, pos: nat): seq<Code>
      requires pos <= |input|
      reads this
    {
      Again(retryCode, input[pos..])
    }

    /** Reads one key, or finds the beginning of one, or something that is none. `blocked` means waiting
        for more input. */
    method ReadKey(input: seq<Code>, from: nat) returns (keys: seq<Key>, pos: nat, blocked: bool)
      requires from <= |input| && Ahead(input, from) != []
      modifies `retryCode
      ensures pos <= |input| && |keys| <= 1
      ensures blocked ==> keys == [] && Waits(old(Ahead(input, from)))
      ensures !blocked ==> Reads(old(Ahead(input, from)), keys, Ahead(input, pos))
      ensures !blocked ==> |Ahead(input, pos)| < |old(Ahead(input, from))|
    {
      hide Reads, Waits;
      ghost var ahead := Ahead(input, from);
      pos := from;
      var code: Code;
      if retryCode != 0 {
        code := retryCode;
        retryCode := 0;
      } else {
        NextCode(input, pos);
        code := input[pos];
        pos := pos + 1;
      }
      assert ahead == [code] + input[pos..];
      if code == ESCAPE {
        keys, pos, blocked := ReadEscape(input, pos);
      } else {
        keys, blocked := Plain(code), false;
        ReadPlain(code, input[pos..]);
      }
    }

    /** The rest of an escape sequence. The push-back slot is empty whenever a code is pushed back. */
    method ReadEscape(input: seq<Code>, from: nat) returns (keys: seq<Key>, pos: nat, blocked: bool)
      requires from <= |input| && retryCode == 0
      modifies `retryCode
      ensures pos <= |input| && |keys| <= 1
      ensures blocked ==> keys == [] && Waits([ESCAPE] + input[from..])
      ensures !blocked ==> Reads([ESCAPE] + input[from..], keys, Ahead(input, pos))
      ensures !blocked ==> |Ahead(input, pos)| <= |input[from..]|
    {
      hide Reads, Waits, Again;
      keys, pos, blocked := [], from, true;
      if pos == |input| { assert input[from..] == []; ReadPart([]); return; }
      NextCode(input, pos);
      var code := input[pos];
      pos := pos + 1;
      ghost var ahead := [ESCAPE] + input[from..];
      assert ahead == [ESCAPE, code] + input[pos..];
      if code != BRACKET {
        retryCode, blocked := code, false;
        ReadNoBracket(code, input[pos..]);
        return;
      }
      assert ahead == [ESCAPE, BRACKET] + input[pos..];
      keys, pos, blocked := ReadBracket(input, pos);
    }

    /** What follows the bracket. */
    method ReadBracket(input: seq<Code>, from: nat) returns (keys: seq<Key>, pos: nat, blocked: bool)
      requires from <= |input| && retryCode == 0
      modifies `retryCode
      ensures pos <= |input| && |keys| <= 1
      ensures blocked ==> keys == [] && Waits([ESCAPE, BRACKET] + input[from..])
      ensures !blocked ==> Reads([ESCAPE, BRACKET] + input[from..], keys, Ahead(input, pos))
      ensures !blocked ==> |Ahead(input, pos)| <= |input[from..]|
    {
      hide Reads, Waits, Arrow, EndsSequence, WantsTilde, Tilded, Again;
      keys, pos, blocked := [], from, true;
      ghost var ahead := [ESCAPE, BRACKET] + input[from..];
      if pos == |input| { assert ahead == [ESCAPE] + [BRACKET]; ReadPart([BRACKET]); return; }
      NextCode(input, pos);
      var code := input[pos];
      pos := pos + 1;
      assert ahead == [ESCAPE, BRACKET, code] + input[pos..];
      if EndsSequence(code) {
        keys, blocked := Arrow(code), false;
        ReadArrow(code, input[pos..]);
        return;
      }
      if !WantsTilde(code) {
        retryCode, blocked := code, false;
        ReadOther(code, input[pos..]);
        return;
      }
      if pos == |input| { assert ahead == [ESCAPE] + [BRACKET, code]; ReadPart([BRACKET, code]); return; }
      NextCode(input, pos);
      var secondCode := input[pos];
      pos := pos + 1;
      assert ahead == [ESCAPE, BRACKET, code, secondCode] + input[pos..];
      ReadTilde(code, secondCode, input[pos..]);
      blocked := false;
      if secondCode == TILDE {
        keys := [Tilded(code)];
      } else {
        retryCode := secondCode;
      }
    }

    /** Acts on one key; the main thread's answer to a Tab is `response`. */
    method Act(key: Key, response: Line)
      requires Valid()
      modifies `buffer, `cursorCol, `history, `historyPos, `draft, `row, `commandQueue
      modifies `awaitingAutoComplete, `autoCompleteInput
      ensures Valid() && View() == Apply(old(View()), if key.Tab? then Completed(response) else Pressed(key))
      ensures commandQueue == old(commandQueue) + Submitted(old(View()), key)
    {
      match key {
        case Tab =>
          BeginAutoComplete();
          RespondToAutoComplete(response);
        case Enter => OnNewLine();
        case Backspace => OnBackspace();
        case Up => OnUp();
        case Down => OnDown();
        case Right => OnRight();
        case Left => OnLeft();
        case Home => OnHome();
        case End => OnEnd();
        case Delete => OnDelete();
        case EndTilde => OnEndTilde();
        case Char(c) => OnChar(c);
      }
    }

    /** The console thread on a stream of codes, up to the point where it waits for more. The `n`th Tab is
        answered with `respond(n, line)`, whatever that is. */
    method ThreadMain(input: seq<Code>, respond: (nat, Line) -> Line) returns (ghost events: seq<Event>)
      requires Valid() && retryCode == 0
      modifies this
      ensures events == Events(old(View()), Decode(input), respond, 0)
      ensures Valid() && View() == Run(old(View()), events)
      ensures commandQueue == old(commandQueue) + Commands(old(View()), events)
    {
      hide Progress, Run, Commands, Events, Decode, Press, Apply, Reads, Waits, RowOf, Submitted;
      ghost var e, queue := View(), commandQueue;
      events := [];
      var pos: nat, tabs: nat := 0, 0;
      assert Ahead(input, 0) == input;
      ProgressStarts(e, queue, input, respond);
      while retryCode != 0 || pos < |input|
        invariant pos <= |input| && Valid()
        invariant Progress(e, queue, input, respond, events, View(), commandQueue, Ahead(input, pos), tabs)
        decreases |Ahead(input, pos)|
      {
        ghost var ahead := Ahead(input, pos);
        var keys, next, blocked := ReadKey(input, pos);
        pos := next;
        if blocked {
          ProgressEnds(e, queue, input, respond, events, View(), commandQueue, ahead, tabs);
          return;
        }
        ghost var view, queued, left := View(), commandQueue, Ahead(input, pos);
        if keys == [] {
          NoKeyNoProgress(e, queue, input, respond, events, view, queued, ahead, left, tabs);
        } else {
          assert keys == [keys[0]];
          KeyMakesProgress(e, queue, input, respond, events, view, queued, ahead, keys[0], left, tabs);
          Act(keys[0], if keys[0] == Tab then respond(tabs, buffer) else []);
          events := events + [EventOf(view, keys[0], respond, tabs)];
          if keys[0] == Tab { tabs := tabs + 1; }
        }
      }
      assert Ahead(input, pos) == [];
      ProgressEnds(e, queue, input, respond, events, View(), commandQueue, [], tabs);
    }
  }

  /** Having started at `e` with the commands `queue`, the loop has seen `events`, of which `tabs` were Tabs; it
      is now at `view` with the commands `queued`, and `ahead` is what is left of the input. */
  ghost predicate Progress(e: Editor, queue: seq<Line>, input: seq<Code>, respond: (nat, Line) -> Line,
      events: seq<Event>, view: Editor, queued: seq<Line>, ahead: seq<Code>, tabs: nat) {
    && e.Valid() && view.Valid() && view == Run(e, events)
    && queued == queue + Commands(e, events)
    && Events(e, Decode(input), respond, 0) == events + Events(view, Decode(ahead), respond, tabs)
  }

  lemma ProgressStarts(e: Editor, queue: seq<Line>, input: seq<Code>, respond: (nat, Line) -> Line)
    requires e.Valid()
    ensures Progress(e, queue, input, respond, [], e, queue, input, 0)
  {
    hide Decode, Events;
    assert queue + [] == queue && [] + Events(e, Decode(input), respond, 0) == Events(e, Decode(input), respond, 0);
  }

  lemma ProgressEnds(e: Editor, queue: seq<Line>, input: seq<Code>, respond: (nat, Line) -> Line,
      events: seq<Event>, view: Editor, queued: seq<Line>, ahead: seq<Code>, tabs: nat)
    requires Progress(e, queue, input, respond, events, view, queued, ahead, tabs)
    requires ahead == [] || Waits(ahead)
    ensures e.Valid() && events == Events(e, Decode(input), respond, 0)
    ensures view == Run(e, events) && queued == queue + Commands(e, events)
  {
    hide Run, Commands;
    assert Decode(ahead) == [] && Events(view, [], respond, tabs) == [];
    assert events + [] == events;
  }

  lemma NoKeyNoProgress(e: Editor, queue: seq<Line>, input: seq<Code>, respond: (nat, Line) -> Line,
      events: seq<Event>, view: Editor, queued: seq<Line>, ahead: seq<Code>, left: seq<Code>, tabs: nat)
    requires Progress(e, queue, input, respond, events, view, queued, ahead, tabs) && Reads(ahead, [], left)
    ensures Progress(e, queue, input, respond, events, view, queued, left, tabs)
  {
    hide Run, Commands, Events, Decode;
    assert [] + Decode(left) == Decode(left);
  }

  lemma KeyMakesProgress(e: Editor, queue: seq<Line>, input: seq<Code>, respond: (nat, Line) -> Line,
      events: seq<Event>, view: Editor, queued: seq<Line>, ahead: seq<Code>, key: Key, left: seq<Code>, tabs: nat)
    requires Progress(e, queue, input, respond, events, view, queued, ahead, tabs) && Reads(ahead, [key], left)
    ensures view.Valid()
    ensures var event := EventOf(view, key, respond, tabs);
      Progress(e, queue, input, respond, events + [event], Apply(view, event), queued + Submitted(view, key), left,
               if key.Tab? then tabs + 1 else tabs)
  {
    hide Run, Commands, Events, Decode, Apply, Submitted;
    var event, after := EventOf(view, key, respond, tabs), Decode(left);
    var tabs' := if key.Tab? then tabs + 1 else tabs;
    RunOneMore(e, events, event);
    EventsOneMore(view, key, after, respond, tabs);
    assert events + ([event] + Events(Apply(view, event), after, respond, tabs'))
        == (events + [event]) + Events(Apply(view, event), after, respond, tabs');
    NoCommandsFromTab(view, key);
    assert queue + Commands(e, events) + Submitted(view, key) == queue + (Commands(e, events) + Submitted(view, key));
  }

  lemma NoCommandsFromTab(e: Editor, key: Key)
    ensures key.Tab? ==> Submitted(e, key) == []
  {}

  lemma UpShows(e: Editor)
    requires e.Valid() && e.history != []
    ensures var pos := if e.historyPos + 1 > |e.history| - 1 then |e.history| - 1 else e.historyPos + 1;
      var draft := if e.historyPos == -1 then e.buffer else e.draft;
      Press(e, Up) == Show(e.(draft := draft, historyPos := pos), e.history[pos])
  {}

  lemma DownShows(e: Editor)
    requires e.Valid() && e.history != []
    ensures var pos := if e.historyPos - 1 < -1 then -1 else e.historyPos - 1;
      Press(e, Down) == Show(e.(historyPos := pos), if pos >= 0 then e.history[pos] else e.draft)
  {}

  lemma SameRow(a: Editor, b: Editor)
    requires a.buffer == b.buffer && a.cursorCol == b.cursorCol && a.tail == b.tail
    ensures RowOf(a) == RowOf(b)
  {}

  lemma NextCode(input: seq<Code>, pos: nat)
    requires pos < |input|
    ensures input[pos..] == [input[pos]] + input[pos + 1..]
  {}

  /** A code pushed back is read again, unless it is 0, which would be ignored anyway. */
  ghost function Again(code: Code, rest: seq<Code>): (codes: seq<Code>)
    ensures |codes| == |rest| + if code != 0 then 1 else 0
  {
    if code != 0 then [code] + rest else rest
  }

  /** `codes` decode to `keys` and then to whatever `left` does. */
  ghost predicate Reads(codes: seq<Code>, keys: seq<Key>, left: seq<Code>) {
    Decode(codes) == keys + Decode(left) && Unfinished(codes) == Unfinished(left)
  }

  /** All of `codes` begins an escape sequence. */
  ghost predicate Waits(codes: seq<Code>) {
    Decode(codes) == [] && Unfinished(codes) == codes
  }

  lemma ReadPlain(code: Code, rest: seq<Code>)
    requires code != ESCAPE
    ensures Reads([code] + rest, Plain(code), rest)
  {
    assert ([code] + rest)[1..] == rest;
  }

  lemma PushBack(code: Code, rest: seq<Code>)
    ensures Reads([code] + rest, [], Again(code, rest))
  {
    if code == 0 {
      ReadPlain(0, rest);
    } else {
      assert [] + Decode([code] + rest) == Decode([code] + rest);
    }
  }

  lemma ReadNoBracket(code: Code, rest: seq<Code>)
    requires code != BRACKET
    ensures Reads([ESCAPE, code] + rest, [], Again(code, rest))
  {
    assert ([ESCAPE, code] + rest)[1..] == [code] + rest;
    PushBack(code, rest);
  }

  lemma ReadArrow(code: Code, rest: seq<Code>)
    requires EndsSequence(code)
    ensures Reads([ESCAPE, BRACKET, code] + rest, Arrow(code), Again(0, rest))
  {
    assert ([ESCAPE, BRACKET, code] + rest)[3..] == rest;
  }

  lemma ReadOther(code: Code, rest: seq<Code>)
    requires !EndsSequence(code) && !WantsTilde(code)
    ensures Reads([ESCAPE, BRACKET, code] + rest, [], Again(code, rest))
  {
    assert ([ESCAPE, BRACKET, code] + rest)[2..] == [code] + rest;
    PushBack(code, rest);
  }

  lemma ReadTilde(code: Code, second: Code, rest: seq<Code>)
    requires WantsTilde(code)
    ensures second == TILDE ==> Reads([ESCAPE, BRACKET, code, second] + rest, [Tilded(code)], Again(0, rest))
    ensures second != TILDE ==> Reads([ESCAPE, BRACKET, code, second] + rest, [], Again(second, rest))
  {
    var codes := [ESCAPE, BRACKET, code, second] + rest;
    assert codes[4..] == rest && codes[3..] == [second] + rest;
    PushBack(second, rest);
  }

  lemma ReadPart(more: seq<Code>)
    requires more == [] || more == [BRACKET] || exists c :: WantsTilde(c) && more == [BRACKET, c]
    ensures Waits([ESCAPE] + more)
  {}

  lemma EventsOneMore(v: Editor, key: Key, after: seq<Key>, respond: (nat, Line) -> Line, tabs: nat)
    requires v.Valid()
    ensures var event := EventOf(v, key, respond, tabs);
      Events(v, [key] + after, respond, tabs)
      == [event] + Events(Apply(v, event), after, respond, if key.Tab? then tabs + 1 else tabs)
  {
    hide Apply;
    assert ([key] + after)[1..] == after;
  }
}
