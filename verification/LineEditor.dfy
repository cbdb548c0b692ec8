/** The line being edited, the history, and what the terminal row shows, as values. `Console` proves that
    its handlers, which print a few characters and backspaces each, do what `Press` says. */
module LineEditor {
  import opened Terminal
  import opened Keys

  const HISTORY_LIMIT := 512

  /** `tail` is what the row shows to the right of the buffer: blank cells, or remains of earlier lines. */
  datatype Editor = Editor(buffer: Line, cursorCol: nat, history: seq<Line>, historyPos: int, draft: Line, tail: Line) {
    ghost predicate Valid() {
      cursorCol <= |buffer| && -1 <= historyPos < |history| && |history| <= HISTORY_LIMIT
    }
  }

  /** The row that shows the editor: prompt, buffer, tail, and the cursor at its place in the buffer. */
  function RowOf(e: Editor): (r: Row)
    ensures r.col == |PROMPT| + e.cursorCol
  {
    Row(PROMPT + e.buffer + e.tail, |PROMPT| + e.cursorCol)
  }

  /** The row `redrawLine` paints from nothing. */
  function Redrawn(e: Editor): Row {
    Row(PROMPT + e.buffer, |PROMPT| + e.cursorCol)
  }

  /** Replaces the line by erasing what is left of the cursor, and only that, and printing the new one. */
  function Show(e: Editor, line: Line): Editor
    requires e.cursorCol <= |e.buffer|
  {
    e.(buffer := line, cursorCol := |line|,
       tail := Behind(Blanks(e.cursorCol) + e.buffer[e.cursorCol..] + e.tail, |line|))
  }

  function Remember(history: seq<Line>, line: Line): seq<Line> {
    if history != [] && history[0] == line then history
    else if |history| + 1 > HISTORY_LIMIT then [line] + history[..|history| - 1]
    else [line] + history
  }

  /** The commands a key submits. */
  function Submitted(e: Editor, key: Key): seq<Line> {
    if key.Enter? && e.buffer != [] then [e.buffer] else []
  }

  /** What a key does. `Tab` only asks the main thread for a completion, which arrives as `Completed`. */
  function Press(e: Editor, key: Key): (r: Editor)
    requires e.Valid()
    ensures r.Valid()
  {
    match key
    case Tab => e
    case Char(c) =>
      e.(buffer := e.buffer[..e.cursorCol] + [c] + e.buffer[e.cursorCol..], cursorCol := e.cursorCol + 1,
         tail := Behind(e.tail, 1))
    case Backspace =>
      if e.cursorCol == 0 then e
      else e.(buffer := e.buffer[..e.cursorCol - 1] + e.buffer[e.cursorCol..], cursorCol := e.cursorCol - 1,
              tail := [BLANK] + e.tail)
    case Delete =>
      if e.cursorCol == |e.buffer| then e
      else e.(buffer := e.buffer[..e.cursorCol] + e.buffer[e.cursorCol + 1..], tail := [BLANK] + e.tail)
    case Right => if e.cursorCol < |e.buffer| then e.(cursorCol := e.cursorCol + 1) else e
    case Left => if e.cursorCol > 0 then e.(cursorCol := e.cursorCol - 1) else e
    case Home => e.(cursorCol := 0)
    case End => e.(cursorCol := |e.buffer|)
    case EndTilde => e.(cursorCol := |e.buffer|)
    case Up =>
      if e.history == [] then e
      else
        var draft := if e.historyPos == -1 then e.buffer else e.draft;
        var pos := if e.historyPos + 1 > |e.history| - 1 then |e.history| - 1 else e.historyPos + 1;
        Show(e, e.history[pos]).(draft := draft, historyPos := pos)
    case Down =>
      if e.history == [] then e
      else
        var pos := if e.historyPos - 1 < -1 then -1 else e.historyPos - 1;
        Show(e, if pos >= 0 then e.history[pos] else e.draft).(historyPos := pos)
    case Enter =>
      if e.buffer == [] then e
      else Editor([], 0, Remember(e.history, e.buffer), -1, e.draft, [])
  }

  /** What can happen to the line: a key, a log line ending in a newline, or a completion. */
  datatype Event = Pressed(key: Key) | Logged | Completed(line: Line)

  function Apply(e: Editor, event: Event): (r: Editor)
    requires e.Valid()
    ensures r.Valid()
  {
    match event
    case Pressed(key) => Press(e, key)
    case Logged => e.(tail := [])
    case Completed(line) => Show(e, line)
  }

  function Run(e: Editor, events: seq<Event>): (r: Editor)
    requires e.Valid()
    ensures r.Valid()
  {
    if events == [] then e else Apply(Run(e, events[..|events| - 1]), events[|events| - 1])
  }

  /** The commands a run submits, in order. */
  function Commands(e: Editor, events: seq<Event>): seq<Line>
    requires e.Valid()
  {
    if events == [] then []
    else
      var before, event := events[..|events| - 1], events[|events| - 1];
      Commands(e, before) + if event.Pressed? then Submitted(Run(e, before), event.key) else []
  }

  lemma RunOneMore(e: Editor, events: seq<Event>, event: Event)
    requires e.Valid()
    ensures Run(e, events + [event]) == Apply(Run(e, events), event)
    ensures Commands(e, events + [event])
         == Commands(e, events) + if event.Pressed? then Submitted(Run(e, events), event.key) else []
  {
    hide Apply, Submitted;
    var longer := events + [event];
    assert longer[..|longer| - 1] == events;
  }

  /** The events of a run of keys when the `n`th Tab is answered with `respond(n, line)`. */
  function Events(e: Editor, keys: seq<Key>, respond: (nat, Line) -> Line, tabs: nat): seq<Event>
    requires e.Valid()
    decreases |keys|
  {
    if keys == [] then []
    else
      var event := EventOf(e, keys[0], respond, tabs);
      [event] + Events(Apply(e, event), keys[1..], respond, if keys[0].Tab? then tabs + 1 else tabs)
  }

  function EventOf(e: Editor, key: Key, respond: (nat, Line) -> Line, tabs: nat): Event {
    if key.Tab? then Completed(respond(tabs, e.buffer)) else Pressed(key)
  }

  // ---------------------------------------------------------------- rows

  lemma RowShowsEditor(e: Editor)
    requires e.Valid()
    ensures RowOf(e).Valid()
    ensures Behind(RowOf(e).cells, |PROMPT| + |e.buffer|) == e.tail
  {
    var front := PROMPT + e.buffer;
    assert (front + e.tail)[|front|..] == e.tail;
  }

  /** The row with the prompt and `left` before the cursor, and `right` from the cursor on. */
  function At(left: Line, right: Line): (r: Row)
    ensures r.Valid()
  {
    Row(PROMPT + left + right, |PROMPT| + |left|)
  }

  lemma RowIsAt(e: Editor, a: Line, b: Line)
    requires e.buffer == a + b && e.cursorCol == |a|
    ensures RowOf(e) == At(a, b + e.tail)
  {
    assert PROMPT + (a + b) + e.tail == PROMPT + a + (b + e.tail);
  }

  lemma AtWrite(left: Line, right: Line, line: Line)
    ensures Write(At(left, right), line) == At(left + line, Behind(right, |line|))
  {
    WriteAt(PROMPT + left, right, line);
    assert PROMPT + left + line == PROMPT + (left + line);
  }

  lemma AtBack(left: Line, moved: Line, right: Line)
    ensures Back(At(left + moved, right), |moved|) == At(left, moved + right)
  {
    assert PROMPT + (left + moved) + right == PROMPT + left + (moved + right);
  }

  lemma AtErase(left: Line, gone: Line, right: Line)
    ensures EraseLeft(At(left + gone, right), |gone|) == At(left, Blanks(|gone|) + right)
  {
    var cells := PROMPT + (left + gone) + right;
    assert cells == (PROMPT + left) + gone + right;
    assert cells[..|PROMPT + left|] == PROMPT + left;
    assert cells[|PROMPT + left| + |gone|..] == right;
    assert PROMPT + left + Blanks(|gone|) + right == PROMPT + left + (Blanks(|gone|) + right);
  }

  /** Typing: the character is printed, then the rest of the buffer, then as many backspaces. */
  lemma CharPaints(e: Editor, c: Cell)
    requires e.Valid()
    ensures RowOf(e).Valid()
    ensures Back(Write(Write(RowOf(e), [c]), e.buffer[e.cursorCol..]), |e.buffer| - e.cursorCol)
         == RowOf(Press(e, Char(c)))
  {
    hide At, Write, Back, RowOf;
    var a, b, r := e.buffer[..e.cursorCol], e.buffer[e.cursorCol..], Press(e, Char(c));
    assert e.buffer == a + b;
    RowIsAt(e, a, b);
    AtWrite(a, b + e.tail, [c]);
    AtWrite(a + [c], Behind(b + e.tail, 1), b);
    BehindBehind(b + e.tail, 1, |b|);
    BehindPrefix(b, e.tail, 1);
    AtBack(a + [c], b, Behind(e.tail, 1));
    RowIsAt(r, a + [c], b);
  }

  /** Deleting at the cursor: the rest of the buffer and a blank are printed, then as many backspaces. */
  lemma DeletePaints(e: Editor)
    requires e.Valid() && e.cursorCol < |e.buffer|
    ensures RowOf(e).Valid()
    ensures Back(Write(RowOf(e), e.buffer[e.cursorCol + 1..] + [BLANK]), |e.buffer| - e.cursorCol)
         == RowOf(Press(e, Delete))
  {
    hide At, Write, Back, RowOf;
    var a, c, b, r := e.buffer[..e.cursorCol], e.buffer[e.cursorCol], e.buffer[e.cursorCol + 1..], Press(e, Delete);
    assert e.buffer == a + ([c] + b);
    RowIsAt(e, a, [c] + b);
    AtWrite(a, ([c] + b) + e.tail, b + [BLANK]);
    BehindPrefix([c] + b, e.tail, 0);
    AtBack(a, b + [BLANK], e.tail);
    RowIsAt(r, a, b);
    assert (b + [BLANK]) + e.tail == b + r.tail;
  }

  /** Erasing left of the cursor and printing a line. */
  lemma ShowPaints(e: Editor, line: Line)
    requires e.Valid()
    ensures RowOf(e).Valid()
    ensures Write(EraseLeft(RowOf(e), e.cursorCol), line) == RowOf(Show(e, line))
  {
    hide At, Write, EraseLeft, RowOf;
    var a, b := e.buffer[..e.cursorCol], e.buffer[e.cursorCol..];
    assert e.buffer == a + b && [] + a == a && [] + line == line && line + [] == line;
    RowIsAt(e, a, b);
    AtErase([], a, b + e.tail);
    AtWrite([], Blanks(|a|) + (b + e.tail), line);
    assert Blanks(|a|) + (b + e.tail) == Blanks(|a|) + b + e.tail;
    var r := Show(e, line);
    RowIsAt(r, line, []);
    assert [] + r.tail == r.tail;
  }

  lemma EraseOneAt(a: Line, c: Cell, b: Line, tail: Line)
    ensures EraseLeft(At(a + [c], b + tail), 1) == At(a, [BLANK] + b + tail)
  {
    hide At, EraseLeft;
    AtErase(a, [c], b + tail);
    assert Blanks(1) + (b + tail) == [BLANK] + b + tail;
  }

  lemma ReprintAt(a: Line, b: Line, tail: Line)
    ensures Back(Write(At(a, [BLANK] + b + tail), b + [BLANK]), |b| + 1) == At(a, b + ([BLANK] + tail))
  {
    hide At, Write, Back;
    AtWrite(a, ([BLANK] + b) + tail, b + [BLANK]);
    BehindPrefix([BLANK] + b, tail, 0);
    AtBack(a, b + [BLANK], tail);
    assert (b + [BLANK]) + tail == b + ([BLANK] + tail);
  }

  /** Backspacing blanks the cell left of the cursor; inside the line the rest of the buffer and a blank
      are printed too, and then backspaces back to where the blank was. */
  lemma BackspacePaints(e: Editor)
    requires e.Valid() && e.cursorCol > 0
    ensures RowOf(e).Valid()
    ensures e.cursorCol == |e.buffer| ==> EraseLeft(RowOf(e), 1) == RowOf(Press(e, Backspace))
    ensures Back(Write(EraseLeft(RowOf(e), 1), e.buffer[e.cursorCol..] + [BLANK]), |e.buffer| - e.cursorCol + 1)
         == RowOf(Press(e, Backspace))
  {
    hide At, Write, Back, EraseLeft, RowOf;
    var a, c, b := e.buffer[..e.cursorCol - 1], e.buffer[e.cursorCol - 1], e.buffer[e.cursorCol..];
    assert e.buffer == (a + [c]) + b;
    RowIsAt(e, a + [c], b);
    EraseOneAt(a, c, b, e.tail);
    ReprintAt(a, b, e.tail);
    RowIsAt(Press(e, Backspace), a, b);
    if b == [] { assert [BLANK] + b + e.tail == b + ([BLANK] + e.tail); }
  }

  /** Printing a stretch of the buffer over itself only moves the cursor. */
  lemma ReprintMoves(e: Editor, i: nat, j: nat)
    requires e.Valid() && i <= j <= |e.buffer|
    ensures RowOf(e.(cursorCol := i)).Valid()
    ensures Write(RowOf(e.(cursorCol := i)), e.buffer[i..j]) == RowOf(e.(cursorCol := j))
  {
    hide At, Write, RowOf;
    var a, b, c := e.buffer[..i], e.buffer[i..j], e.buffer[j..];
    assert e.buffer == a + (b + c) && e.buffer == (a + b) + c;
    RowIsAt(e.(cursorCol := i), a, b + c);
    RowIsAt(e.(cursorCol := j), a + b, c);
    AtWrite(a, (b + c) + e.tail, b);
    assert (b + c) + e.tail == b + (c + e.tail);
    BehindPrefix(b, c + e.tail, 0);
  }

  /** Printing the prompt over itself. */
  lemma PromptReprints(e: Editor)
    requires e.Valid()
    ensures RowOf(e).Valid()
    ensures Write(Put(RowOf(e), RETURN), PROMPT) == RowOf(e.(cursorCol := 0))
  {
    var rest := e.buffer + e.tail;
    assert PROMPT + e.buffer + e.tail == [] + (PROMPT + rest);
    WriteAt([], PROMPT + rest, PROMPT);
    BehindPrefix(PROMPT, rest, 0);
    assert [] + PROMPT + rest == PROMPT + e.buffer + e.tail;
  }
}
