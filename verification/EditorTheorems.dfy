/** What holds over whole runs of keys, log lines and completions. */
module EditorTheorems {
  import opened Terminal
  import opened Keys
  import opened LineEditor
  import opened Options

  lemma {:induction false} RunSplits(e: Editor, a: seq<Event>, b: seq<Event>)
    requires e.Valid()
    ensures Run(e, a + b) == Run(Run(e, a), b)
    decreases |b|
  {
    hide Apply;
    if b == [] {
      assert a + b == a;
    } else {
      assert (a + b)[..|a + b| - 1] == a + b[..|b| - 1];
      RunSplits(e, a, b[..|b| - 1]);
    }
  }

  // ---------------------------------------------------------------- the row against a full redraw

  /** The row agrees with what `redrawLine` would paint iff everything right of the buffer is blank. */
  lemma LooksRedrawnIffBlankTail(e: Editor)
    requires e.Valid()
    ensures LookAlike(RowOf(e), Redrawn(e)) <==> AllBlank(e.tail)
  {
    var a, b := RowOf(e), Redrawn(e);
    var n := |PROMPT + e.buffer|;
    assert a.cells[..n] == b.cells;
    assert forall i :: 0 <= i < |e.tail| ==> a.cells[n + i] == e.tail[i];
    if AllBlank(e.tail) {
      forall i | 0 <= i < |a.cells|
        ensures CellAt(a, i) == CellAt(b, i)
      {
        assert i < n ==> a.cells[..n][i] == b.cells[i];
        assert i >= n ==> a.cells[i] == e.tail[i - n];
      }
    }
    if LookAlike(a, b) {
      forall i | 0 <= i < |e.tail|
        ensures e.tail[i] == BLANK
      {
        assert CellAt(a, n + i) == CellAt(b, n + i);
      }
    }
  }

  /** The line an event puts in place of the buffer by erasing to the left of the cursor. */
  function Replacement(e: Editor, event: Event): Option<Line>
    requires e.Valid()
  {
    match event
    case Completed(line) => Some(line)
    case Pressed(Up) =>
      if e.history == [] then None
      else Some(e.history[if e.historyPos + 1 > |e.history| - 1 then |e.history| - 1 else e.historyPos + 1])
    case Pressed(Down) =>
      if e.history == [] then None
      else if e.historyPos - 1 >= 0 then Some(e.history[e.historyPos - 1]) else Some(e.draft)
    case _ => None
  }

  /** What the old line leaves standing: the part right of the cursor that the new line does not cover. */
  function Remains(e: Editor, line: Line): Line {
    Behind(e.buffer, if e.cursorCol < |line| then |line| else e.cursorCol)
  }

  ghost predicate LeavesNothing(e: Editor, event: Event)
    requires e.Valid()
  {
    var line := Replacement(e, event);
    line.None? || AllBlank(Remains(e, line.value))
  }

  /** The cell `i` of what a replacement starts from: blank left of the cursor, then the old buffer and tail. */
  lemma ErasedCell(e: Editor, i: nat)
    requires e.Valid() && AllBlank(e.tail) && i < |e.buffer| + |e.tail|
    ensures (Blanks(e.cursorCol) + e.buffer[e.cursorCol..] + e.tail)[i]
         == if e.cursorCol <= i < |e.buffer| then e.buffer[i] else BLANK
  {}

  lemma ShowIsCleanIff(e: Editor, line: Line)
    requires e.Valid() && AllBlank(e.tail)
    ensures AllBlank(Show(e, line).tail) <==> AllBlank(Remains(e, line))
  {
    var n, cells := |line|, Blanks(e.cursorCol) + e.buffer[e.cursorCol..] + e.tail;
    var m := if e.cursorCol < n then n else e.cursorCol;
    var tail, remains := Show(e, line).tail, Remains(e, line);
    hide Blanks, Show, Remains;
    assert tail == Behind(cells, n) by { ShowAndRemains(e, line); }
    assert remains == Behind(e.buffer, m) by { ShowAndRemains(e, line); }
    forall i | 0 <= i < |tail|
      ensures tail[i] == if m <= n + i < |e.buffer| then remains[n + i - m] else BLANK
    {
      ErasedCell(e, n + i);
    }
    if AllBlank(tail) {
      forall i | 0 <= i < |remains|
        ensures remains[i] == BLANK
      {
        assert tail[m + i - n] == remains[i];
      }
    }
  }

  lemma ShowAndRemains(e: Editor, line: Line)
    ensures e.cursorCol <= |e.buffer| ==>
      Show(e, line).tail == Behind(Blanks(e.cursorCol) + e.buffer[e.cursorCol..] + e.tail, |line|)
    ensures Remains(e, line) == Behind(e.buffer, if e.cursorCol < |line| then |line| else e.cursorCol)
  {}

  /** One event keeps the row as a redraw would paint it iff it leaves no remains of the old line. */
  lemma StepStaysCleanIff(e: Editor, event: Event)
    requires e.Valid() && AllBlank(e.tail)
    ensures AllBlank(Apply(e, event).tail) <==> LeavesNothing(e, event)
  {
    match event {
      case Completed(line) => ShowIsCleanIff(e, line);
      case Logged =>
      case Pressed(key) =>
        if (key.Up? || key.Down?) && e.history != [] {
          ShowIsCleanIff(e, Replacement(e, event).value);
        }
    }
  }

  /** After each event of the run, and before the first, the row is as a redraw would paint it. */
  ghost predicate CleanThroughout(e: Editor, events: seq<Event>)
    requires e.Valid()
    decreases |events|
  {
    && LookAlike(RowOf(Run(e, events)), Redrawn(Run(e, events)))
    && (events == [] || CleanThroughout(e, events[..|events| - 1]))
  }

  /** No event of the run leaves something of a line it replaces. */
  ghost predicate NothingLeftThroughout(e: Editor, events: seq<Event>)
    requires e.Valid()
    decreases |events|
  {
    if events == [] then true
    else
      var before := events[..|events| - 1];
      NothingLeftThroughout(e, before) && LeavesNothing(Run(e, before), events[|events| - 1])
  }

  /** Exactly the runs on which incremental painting agrees with a full redraw at every moment: those in
      which no Up, Down or completion leaves something visible of the line it replaces. */
  lemma {:induction false} CleanIffNothingLeft(e: Editor, events: seq<Event>)
    requires e.Valid() && LookAlike(RowOf(e), Redrawn(e))
    ensures CleanThroughout(e, events) <==> NothingLeftThroughout(e, events)
    decreases |events|
  {
    hide Apply, LeavesNothing, AllBlank, LookAlike, RowOf, Redrawn;
    if events != [] {
      var before, last := events[..|events| - 1], events[|events| - 1];
      CleanIffNothingLeft(e, before);
      LooksRedrawnIffBlankTail(Run(e, before));
      LooksRedrawnIffBlankTail(Run(e, events));
      if AllBlank(Run(e, before).tail) { StepStaysCleanIff(Run(e, before), last); }
      assert CleanThroughout(e, before) ==> AllBlank(Run(e, before).tail);
    }
  }

  /** Lines are replaced only with the cursor at their end. */
  ghost predicate ReplacesAtEnd(e: Editor, events: seq<Event>)
    requires e.Valid()
    decreases |events|
  {
    if events == [] then true
    else
      var before := events[..|events| - 1];
      var r := Run(e, before);
      && ReplacesAtEnd(e, before)
      && (Replacement(r, events[|events| - 1]).None? || r.cursorCol == |r.buffer|)
  }

  /** In particular the two agree on every run that replaces lines only with the cursor at their end. */
  lemma CursorAtEndIsClean(e: Editor, events: seq<Event>)
    requires e.Valid() && LookAlike(RowOf(e), Redrawn(e)) && ReplacesAtEnd(e, events)
    ensures CleanThroughout(e, events)
  {
    AtEndLeavesNothing(e, events);
    CleanIffNothingLeft(e, events);
  }

  lemma {:induction false} AtEndLeavesNothing(e: Editor, events: seq<Event>)
    requires e.Valid() && ReplacesAtEnd(e, events)
    ensures NothingLeftThroughout(e, events)
    decreases |events|
  {
    if events != [] {
      var before := events[..|events| - 1];
      AtEndLeavesNothing(e, before);
    }
  }

  // ---------------------------------------------------------------- history

  /** The commands newest first, with a command equal to the one submitted just before it left out. */
  function Recall(commands: seq<Line>): seq<Line> {
    if commands == [] then []
    else
      var before, last := commands[..|commands| - 1], commands[|commands| - 1];
      if before != [] && before[|before| - 1] == last then Recall(before) else [last] + Recall(before)
  }

  function Newest(lines: seq<Line>): seq<Line> {
    if |lines| <= HISTORY_LIMIT then lines else lines[..HISTORY_LIMIT]
  }

  lemma {:induction false} RecallStartsWithLatest(commands: seq<Line>)
    requires commands != []
    ensures Recall(commands) != [] && Recall(commands)[0] == commands[|commands| - 1]
  {
    var before := commands[..|commands| - 1];
    if before != [] { RecallStartsWithLatest(before); }
  }

  lemma RememberRecalls(commands: seq<Line>, line: Line)
    ensures Remember(Newest(Recall(commands)), line) == Newest(Recall(commands + [line]))
  {
    assert (commands + [line])[..|commands|] == commands;
    if commands != [] { RecallStartsWithLatest(commands); }
  }

  /** History refinement: after any run from an empty history, the history is the newest 512 of the
      submitted lines, newest first and without immediate repetitions. */
  lemma {:induction false} HistoryRecallsCommands(e: Editor, events: seq<Event>)
    requires e.Valid() && e.history == []
    ensures Run(e, events).history == Newest(Recall(Commands(e, events)))
    decreases |events|
  {
    if events != [] {
      var before, last := events[..|events| - 1], events[|events| - 1];
      HistoryRecallsCommands(e, before);
      var r := Run(e, before);
      HistoryStep(r, last);
      if last == Pressed(Enter) && r.buffer != [] {
        RememberRecalls(Commands(e, before), r.buffer);
      } else {
        assert Commands(e, events) == Commands(e, before) + [] == Commands(e, before);
      }
    }
  }

  /** Only a submitted line changes the history. */
  lemma HistoryStep(e: Editor, event: Event)
    requires e.Valid()
    ensures Apply(e, event).history
         == if event == Pressed(Enter) && e.buffer != [] then Remember(e.history, e.buffer) else e.history
    ensures event == Pressed(Enter) && e.buffer != [] <==> event.Pressed? && Submitted(e, event.key) != []
    ensures event == Pressed(Enter) && e.buffer != [] ==> Submitted(e, event.key) == [e.buffer]
  {}

  /** Submitting a line and pressing Up brings it back, with the cursor at its end. */
  lemma EnterThenUp(e: Editor)
    requires e.Valid() && e.buffer != []
    ensures var r := Press(Press(e, Enter), Up);
      r.buffer == e.buffer && r.cursorCol == |e.buffer| && r.historyPos == 0
  {}

  // ---------------------------------------------------------------- drafts

  predicate Browses(event: Event) { event == Pressed(Up) || event == Pressed(Down) || event == Pressed(Enter) }

  /** All events are `key` or leave the history alone: edits, cursor moves, completions, log lines. */
  ghost predicate OnlyBrowsesBy(events: seq<Event>, key: Key) {
    forall event :: event in events ==> event == Pressed(key) || !Browses(event)
  }

  function Count(events: seq<Event>, key: Key): nat {
    if events == [] then 0
    else Count(events[..|events| - 1], key) + if events[|events| - 1] == Pressed(key) then 1 else 0
  }

  lemma EditKeepsDraft(e: Editor, event: Event)
    requires e.Valid() && !Browses(event)
    ensures var r := Apply(e, event);
      r.history == e.history && r.historyPos == e.historyPos && r.draft == e.draft
  {}

  lemma {:induction false} UpsClimb(e: Editor, ups: seq<Event>)
    requires e.Valid() && e.history != [] && e.historyPos == -1
    requires ups != [] && ups[0] == Pressed(Up) && OnlyBrowsesBy(ups, Up)
    ensures var r := Run(e, ups);
      && r.history == e.history && r.draft == e.buffer
      && r.historyPos == (if Count(ups, Up) < |e.history| then Count(ups, Up) else |e.history|) - 1
    ensures Count(ups, Up) > 0
    decreases |ups|
  {
    var before, last := ups[..|ups| - 1], ups[|ups| - 1];
    if before == [] {
      assert Run(e, before) == e && Count(before, Up) == 0;
      assert last == Pressed(Up);
    } else {
      UpsClimb(e, before);
      assert last in ups;
      if last != Pressed(Up) { EditKeepsDraft(Run(e, before), last); }
    }
  }

  lemma {:induction false} DownsDescend(e: Editor, downs: seq<Event>)
    requires e.Valid() && e.history != [] && OnlyBrowsesBy(downs, Down)
    ensures var r := Run(e, downs);
      && r.history == e.history && r.draft == e.draft
      && r.historyPos == if Count(downs, Down) <= e.historyPos + 1 then e.historyPos - Count(downs, Down) else -1
    decreases |downs|
  {
    if downs != [] {
      var before, last := downs[..|downs| - 1], downs[|downs| - 1];
      DownsDescend(e, before);
      assert last in downs;
      if last != Pressed(Down) { EditKeepsDraft(Run(e, before), last); }
    }
  }

  /** Draft round trip: browse up from a line, at least once, and down again at least as far, editing
      anything on the way; the last Down brings back the line one came from, cursor at its end. */
  lemma DraftComesBack(e: Editor, ups: seq<Event>, downs: seq<Event>)
    requires e.Valid() && e.history != [] && e.historyPos == -1
    requires ups != [] && ups[0] == Pressed(Up) && OnlyBrowsesBy(ups, Up)
    requires downs != [] && downs[|downs| - 1] == Pressed(Down) && OnlyBrowsesBy(downs, Down)
    requires Count(downs, Down) >= Count(ups, Up) || Count(downs, Down) >= |e.history|
    ensures var r := Run(e, ups + downs);
      r.buffer == e.buffer && r.cursorCol == |e.buffer| && r.historyPos == -1
  {
    hide Apply, Run, Count;
    RunSplits(e, ups, downs);
    UpsClimb(e, ups);
    var middle, before := Run(e, ups), downs[..|downs| - 1];
    assert OnlyBrowsesBy(before, Down) by { assert forall event :: event in before ==> event in downs; }
    LastDown(middle, downs);
    DownsDescend(middle, before);
  }

  lemma LastDown(e: Editor, downs: seq<Event>)
    requires e.Valid() && downs != [] && downs[|downs| - 1] == Pressed(Down)
    ensures var before := downs[..|downs| - 1];
      Run(e, downs) == Press(Run(e, before), Down) && Count(downs, Down) == Count(before, Down) + 1
  {
    hide Press;
  }

  /** The line that was being edited when browsing was last begun; at first the draft `e` has. */
  function LastLeft(e: Editor, events: seq<Event>): Line
    requires e.Valid()
    decreases |events|
  {
    if events == [] then e.draft
    else
      var before := events[..|events| - 1];
      var r := Run(e, before);
      if events[|events| - 1] == Pressed(Up) && r.history != [] && r.historyPos == -1 then r.buffer
      else LastLeft(e, before)
  }

  lemma DraftStep(e: Editor, event: Event)
    requires e.Valid()
    ensures Apply(e, event).draft
         == if event == Pressed(Up) && e.history != [] && e.historyPos == -1 then e.buffer else e.draft
  {}

  /** The draft is written only on leaving position -1. */
  lemma {:induction false} DraftIsLastLeft(e: Editor, events: seq<Event>)
    requires e.Valid()
    ensures Run(e, events).draft == LastLeft(e, events)
    decreases |events|
  {
    hide Show;
    if events != [] {
      var before := events[..|events| - 1];
      DraftIsLastLeft(e, before);
      DraftStep(Run(e, before), events[|events| - 1]);
    }
  }

  /** So a Down pressed without browsing puts the last such line, however old, in place of the current one:
      the current line survives exactly when the two are equal. */
  lemma DownWithoutBrowsing(e: Editor, events: seq<Event>)
    requires e.Valid() && Run(e, events).historyPos == -1 && Run(e, events).history != []
    ensures Press(Run(e, events), Down).buffer == Run(e, events).buffer
       <==> Run(e, events).buffer == LastLeft(e, events)
  {
    DraftIsLastLeft(e, events);
  }

  // ---------------------------------------------------------------- typing

  function Typed(line: Line): seq<Key> {
    if line == [] then [] else Typed(line[..|line| - 1]) + [Char(line[|line| - 1])]
  }

  function AsEvents(keys: seq<Key>): seq<Event> {
    seq(|keys|, i requires 0 <= i < |keys| => Pressed(keys[i]))
  }

  lemma TypingOne(e: Editor, r: Editor, before: Line, c: Cell)
    requires e.Valid() && r == Inserted(e, before)
    ensures Press(r, Char(c)) == Inserted(e, before + [c])
  {
    assert r.buffer[..r.cursorCol] == e.buffer[..e.cursorCol] + before;
    assert r.buffer[r.cursorCol..] == e.buffer[e.cursorCol..];
    assert e.buffer[..e.cursorCol] + before + [c] == e.buffer[..e.cursorCol] + (before + [c]);
    BehindBehind(e.tail, |before|, 1);
  }

  /** The editor with `line` inserted at the cursor. */
  function Inserted(e: Editor, line: Line): (r: Editor)
    requires e.Valid()
    ensures r.Valid()
  {
    e.(buffer := e.buffer[..e.cursorCol] + line + e.buffer[e.cursorCol..], cursorCol := e.cursorCol + |line|,
       tail := Behind(e.tail, |line|))
  }

  /** Typing a line inserts it at the cursor, and does nothing else. */
  lemma {:induction false} TypingInserts(e: Editor, line: Line)
    requires e.Valid()
    ensures Run(e, AsEvents(Typed(line))) == Inserted(e, line)
    ensures Commands(e, AsEvents(Typed(line))) == []
    decreases |line|
  {
    hide Press;
    if line == [] {
      assert e.buffer == e.buffer[..e.cursorCol] + line + e.buffer[e.cursorCol..];
    } else {
      var before, c := line[..|line| - 1], line[|line| - 1];
      TypingInserts(e, before);
      var events := AsEvents(Typed(line));
      assert events[..|events| - 1] == AsEvents(Typed(before));
      assert events[|events| - 1] == Pressed(Char(c));
      assert line == before + [c];
      TypingOne(e, Inserted(e, before), before, c);
    }
  }

  // ---------------------------------------------------------------- runs that go wrong

  /** The line editor when the console starts. */
  const EMPTY := Editor([], 0, [], -1, [], [])

  /** A first command, and then a line typed but not submitted. */
  function CommandThenLine(command: Line, line: Line): seq<Event> {
    AsEvents(Typed(command)) + [Pressed(Enter)] + AsEvents(Typed(line))
  }

  lemma InsertedWhole(line: Line, history: seq<Line>)
    requires |history| <= HISTORY_LIMIT
    ensures Inserted(Editor([], 0, history, -1, [], []), line) == Editor(line, |line|, history, -1, [], [])
  {
    assert [] + line + [] == line;
  }

  lemma FirstCommand(command: Line)
    requires command != []
    ensures Press(Editor(command, |command|, [], -1, [], []), Enter) == Editor([], 0, [command], -1, [], [])
  {}

  lemma AfterCommandAndLine(command: Line, line: Line)
    requires command != []
    ensures Run(EMPTY, CommandThenLine(command, line)) == Editor(line, |line|, [command], -1, [], [])
  {
    hide Run, Press, Inserted, Commands, AsEvents, Typed;
    var typed := AsEvents(Typed(command));
    TypingInserts(EMPTY, command);
    InsertedWhole(command, []);
    RunOneMore(EMPTY, typed, Pressed(Enter));
    FirstCommand(command);
    TypingInserts(Editor([], 0, [command], -1, [], []), line);
    InsertedWhole(line, [command]);
    RunSplits(EMPTY, typed + [Pressed(Enter)], AsEvents(Typed(line)));
  }

  /** After Home and Up the row looks redrawn exactly when the command covers the line that was typed, or only
      blanks stick out. */
  lemma HomeThenUpLeavesRemains(command: Line, line: Line)
    requires command != []
    ensures var r := Run(EMPTY, CommandThenLine(command, line) + [Pressed(Home)] + [Pressed(Up)]);
      && r.buffer == command
      && (LookAlike(RowOf(r), Redrawn(r)) <==> AllBlank(Behind(line, |command|)))
  {
    hide Run, Redrawn, RowOf, LookAlike;
    var events := CommandThenLine(command, line);
    AfterCommandAndLine(command, line);
    RunOneMore(EMPTY, events, Pressed(Home));
    RunOneMore(EMPTY, events + [Pressed(Home)], Pressed(Up));
    var home := Editor(line, 0, [command], -1, [], []);
    assert Blanks(0) + line[0..] + [] == line;
    assert Press(home, Up).tail == Behind(line, |command|);
    LooksRedrawnIffBlankTail(Press(home, Up));
  }

  /** It does not for the command x and the line ab, which leave `> xb` on the row for the buffer x. */
  lemma RemainsOfAB()
    ensures var r := Run(EMPTY, CommandThenLine([120], [97, 98]) + [Pressed(Home)] + [Pressed(Up)]);
      r.buffer == [120] && !LookAlike(RowOf(r), Redrawn(r))
  {
    hide Run, CommandThenLine, LookAlike, RowOf, Redrawn;
    assert Behind([97, 98], |[120]|)[0] == 98;
    HomeThenUpLeavesRemains([120], [97, 98]);
  }

  /** A Down in place of the Home loses the line typed, whatever it is: there is nothing to come back from, and
      the draft is still empty. */
  lemma DownLosesLine(command: Line, line: Line)
    requires command != []
    ensures Run(EMPTY, CommandThenLine(command, line)).buffer == line
    ensures Run(EMPTY, CommandThenLine(command, line) + [Pressed(Down)]).buffer == []
  {
    hide Run;
    AfterCommandAndLine(command, line);
    RunOneMore(EMPTY, CommandThenLine(command, line), Pressed(Down));
  }
}
