/** What the keys do to the line, told by how they undo one another and by what comes of typing, browsing and
    submitting, not by the positions they cut the buffer at. */
module EditorKeys {
  import opened Terminal
  import opened Keys
  import opened LineEditor
  import opened EditorTheorems

  /** The same but for what the row shows right of the buffer. */
  ghost predicate SameText(a: Editor, b: Editor) {
    a == b.(tail := a.tail)
  }

  // ---------------------------------------------------------------- keys that undo one another

  lemma BackspaceUndoesChar(e: Editor, c: Cell)
    requires e.Valid()
    ensures SameText(Press(Press(e, Char(c)), Backspace), e)
  {
    assert e.buffer == e.buffer[..e.cursorCol] + e.buffer[e.cursorCol..];
  }

  /** Backspace takes away one character, the one left of the cursor: typing it again brings the line back. */
  lemma CharUndoesBackspace(e: Editor)
    requires e.Valid() && e.cursorCol > 0
    ensures SameText(Press(Press(e, Backspace), Char(e.buffer[e.cursorCol - 1])), e)
  {
    assert e.buffer == e.buffer[..e.cursorCol - 1] + [e.buffer[e.cursorCol - 1]] + e.buffer[e.cursorCol..];
  }

  /** Delete takes away the character at the cursor. */
  lemma CharUndoesDelete(e: Editor)
    requires e.Valid() && e.cursorCol < |e.buffer|
    ensures SameText(Press(Press(Press(e, Delete), Char(e.buffer[e.cursorCol])), Left), e)
  {
    assert e.buffer == e.buffer[..e.cursorCol] + [e.buffer[e.cursorCol]] + e.buffer[e.cursorCol + 1..];
  }

  lemma LeftDeleteUndoesChar(e: Editor, c: Cell)
    requires e.Valid()
    ensures SameText(Press(Press(Press(e, Char(c)), Left), Delete), e)
  {
    assert e.buffer == e.buffer[..e.cursorCol] + e.buffer[e.cursorCol..];
  }

  /** At the ends of the line these keys do nothing. */
  lemma NothingBeyondTheEnds(e: Editor)
    requires e.Valid()
    ensures e.cursorCol == 0 ==> Press(e, Backspace) == e && Press(e, Left) == e
    ensures e.cursorCol == |e.buffer| ==> Press(e, Delete) == e && Press(e, Right) == e
  {}

  lemma LeftAndRightUndoEachOther(e: Editor)
    requires e.Valid()
    ensures e.cursorCol < |e.buffer| ==> Press(e, Right) != e && Press(Press(e, Right), Left) == e
    ensures e.cursorCol > 0 ==> Press(e, Left) != e && Press(Press(e, Left), Right) == e
  {}

  function Repeat(key: Key, n: nat): seq<Event> {
    if n == 0 then [] else Repeat(key, n - 1) + [Pressed(key)]
  }

  function Least(a: nat, b: nat): nat { if a < b then a else b }

  lemma {:induction false} RunStartsWith(e: Editor, first: Event, rest: seq<Event>)
    requires e.Valid()
    ensures Run(e, [first] + rest) == Run(Apply(e, first), rest)
  {
    hide Apply;
    assert [first][..0] == [];
    RunSplits(e, [first], rest);
  }

  /** From Home, so many Rights lead to any place in the line, and no further than its end. */
  lemma {:induction false} RightsFromHome(e: Editor, n: nat)
    requires e.Valid()
    ensures Run(e, [Pressed(Home)] + Repeat(Right, n)) == e.(cursorCol := Least(n, |e.buffer|))
  {
    if n == 0 {
      assert [Pressed(Home)][..0] == [];
      assert [Pressed(Home)] + Repeat(Right, 0) == [Pressed(Home)];
    } else {
      RightsFromHome(e, n - 1);
      RunOneMore(e, [Pressed(Home)] + Repeat(Right, n - 1), Pressed(Right));
      assert [Pressed(Home)] + Repeat(Right, n) == [Pressed(Home)] + Repeat(Right, n - 1) + [Pressed(Right)];
    }
  }

  /** From either End, so many Lefts lead back to any place, and no further than its start. */
  lemma {:induction false} LeftsFromEnd(e: Editor, end: Key, n: nat)
    requires e.Valid() && (end == End || end == EndTilde)
    ensures Run(e, [Pressed(end)] + Repeat(Left, n)) == e.(cursorCol := |e.buffer| - Least(n, |e.buffer|))
  {
    if n == 0 {
      assert [Pressed(end)][..0] == [];
      assert [Pressed(end)] + Repeat(Left, 0) == [Pressed(end)];
    } else {
      LeftsFromEnd(e, end, n - 1);
      RunOneMore(e, [Pressed(end)] + Repeat(Left, n - 1), Pressed(Left));
      assert [Pressed(end)] + Repeat(Left, n) == [Pressed(end)] + Repeat(Left, n - 1) + [Pressed(Left)];
    }
  }

  /** Typing a line and as many Backspaces leaves the text as it was. */
  lemma {:induction false} ErasingUndoesTyping(e: Editor, line: Line)
    requires e.Valid()
    ensures SameText(Run(e, AsEvents(Typed(line)) + Repeat(Backspace, |line|)), e)
    decreases |line|
  {
    hide Press, Run;
    TypingInserts(e, line);
    RunSplits(e, AsEvents(Typed(line)), Repeat(Backspace, |line|));
    ErasesInserted(e, line);
  }

  lemma {:induction false} ErasesInserted(e: Editor, line: Line)
    requires e.Valid()
    ensures SameText(Run(Inserted(e, line), Repeat(Backspace, |line|)), e)
    decreases |line|
  {
    hide Press, Run;
    var n := |line|;
    if n == 0 {
      assert e.buffer[..e.cursorCol] + line + e.buffer[e.cursorCol..] == e.buffer;
      NoEvents(Inserted(e, line));
    } else {
      var before, c := line[..n - 1], line[n - 1];
      assert line == before + [c];
      TypingOne(e, Inserted(e, before), before, c);
      BackspaceUndoesChar(Inserted(e, before), c);
      var erased := Press(Inserted(e, line), Backspace);
      RepeatFirst(Backspace, n);
      RunStartsWith(Inserted(e, line), Pressed(Backspace), Repeat(Backspace, n - 1));
      ErasesInserted(e, before);
      TextStaysSame(erased, Inserted(e, before), n - 1);
    }
  }

  lemma NoEvents(e: Editor)
    requires e.Valid()
    ensures Run(e, []) == e
  {}

  lemma {:induction false} RepeatFirst(key: Key, n: nat)
    requires n > 0
    ensures Repeat(key, n) == [Pressed(key)] + Repeat(key, n - 1)
  {
    if n > 1 { RepeatFirst(key, n - 1); }
  }

  /** What the row shows right of the buffer makes no difference to Backspaces. */
  lemma {:induction false} TextStaysSame(a: Editor, b: Editor, n: nat)
    requires a.Valid() && b.Valid() && SameText(a, b)
    ensures SameText(Run(a, Repeat(Backspace, n)), Run(b, Repeat(Backspace, n)))
  {
    if n == 0 {
      NoEvents(a);
      NoEvents(b);
    } else {
      TextStaysSame(a, b, n - 1);
      RunOneMore(a, Repeat(Backspace, n - 1), Pressed(Backspace));
      RunOneMore(b, Repeat(Backspace, n - 1), Pressed(Backspace));
    }
  }

  // ---------------------------------------------------------------- replaced lines

  /** A completion replaces the line, with the cursor at its end, and touches neither history nor draft. */
  lemma CompletionReplaces(e: Editor, line: Line)
    requires e.Valid()
    ensures SameText(Apply(e, Completed(line)), e.(buffer := line, cursorCol := |line|))
  {}

  /** Asking for a completion changes nothing by itself: the answer does. */
  lemma TabOnlyAsks(e: Editor)
    requires e.Valid()
    ensures Press(e, Tab) == e && Submitted(e, Tab) == []
  {}

  /** A log line leaves the text alone and the row just as a redraw paints it. */
  lemma LogRedraws(e: Editor)
    requires e.Valid()
    ensures SameText(Apply(e, Logged), e) && RowOf(Apply(e, Logged)) == Redrawn(e)
  {
    assert PROMPT + e.buffer + [] == PROMPT + e.buffer;
  }

  /** Up goes one line back in the history and Down one on, to the draft at last; the line come to is shown, with
      the cursor at its end. */
  lemma BrowsingShows(e: Editor)
    requires e.Valid() && e.history != []
    ensures var r := Press(e, Up);
      && r.historyPos == (if e.historyPos == |e.history| - 1 then e.historyPos else e.historyPos + 1)
      && r.buffer == e.history[r.historyPos] && r.cursorCol == |r.buffer|
    ensures var r := Press(e, Down);
      && r.historyPos == (if e.historyPos == -1 then -1 else e.historyPos - 1)
      && r.buffer == (if r.historyPos == -1 then e.draft else e.history[r.historyPos]) && r.cursorCol == |r.buffer|
  {}

  /** The `n`th Up since the history was left shows its `n`th line, whatever was edited in between, and past its
      end the oldest. */
  lemma NthUpShows(e: Editor, ups: seq<Event>)
    requires e.Valid() && e.history != [] && e.historyPos == -1
    requires ups != [] && ups[0] == Pressed(Up) && OnlyBrowsesBy(ups, Up) && ups[|ups| - 1] == Pressed(Up)
    ensures var r, n := Run(e, ups), Least(Count(ups, Up), |e.history|);
      n > 0 && r.buffer == e.history[n - 1] && r.cursorCol == |r.buffer|
  {
    hide Press, Show, Count;
    var before := ups[..|ups| - 1];
    UpsClimb(e, ups);
    if before == [] {
      NoEvents(e);
    } else {
      assert OnlyBrowsesBy(before, Up) by { assert forall event :: event in before ==> event in ups; }
      UpsClimb(e, before);
    }
    BrowsingShows(Run(e, before));
  }

  /** So from an empty history on: having submitted what it did, a run that then presses Up `n` times shows the
      `n`th newest of the submitted lines, immediate repetitions left out. */
  lemma NthUpRecalls(e: Editor, events: seq<Event>, ups: seq<Event>)
    requires e.Valid() && e.history == [] && Commands(e, events) != [] && Run(e, events).historyPos == -1
    requires ups != [] && ups[0] == Pressed(Up) && OnlyBrowsesBy(ups, Up) && ups[|ups| - 1] == Pressed(Up)
    ensures var lines := Newest(Recall(Commands(e, events)));
      var n := Least(Count(ups, Up), |lines|);
      n > 0 && Run(e, events + ups).buffer == lines[n - 1]
  {
    hide Run, Commands, Count;
    HistoryRecallsCommands(e, events);
    RecallStartsWithLatest(Commands(e, events));
    RunSplits(e, events, ups);
    NthUpShows(Run(e, events), ups);
  }

  // ---------------------------------------------------------------- from bytes to commands

  /** A line typed into the empty buffer is what Enter submits, and the buffer is empty again. */
  lemma TypedLineIsSubmitted(e: Editor, line: Line)
    requires e.Valid() && e.buffer == [] && line != []
    ensures var events := AsEvents(Typed(line)) + [Pressed(Enter)];
      && Commands(e, events) == [line]
      && Run(e, events).buffer == [] && Run(e, events).cursorCol == 0 && Run(e, events).historyPos == -1
  {
    hide Run, Commands, AsEvents, Typed, Press, Inserted;
    TypingInserts(e, line);
    RunOneMore(e, AsEvents(Typed(line)), Pressed(Enter));
    EnterSubmits(e, line);
  }

  lemma EnterSubmits(e: Editor, line: Line)
    requires e.Valid() && e.buffer == [] && line != []
    ensures var typed := Inserted(e, line);
      var r := Press(typed, Enter);
      Submitted(typed, Enter) == [line] && r.buffer == [] && r.cursorCol == 0 && r.historyPos == -1
  {
    assert [] + line + [] == line;
  }

  /** Bytes that take a cell are characters. */
  lemma {:induction false} DecodeLine(line: Line, rest: seq<Code>)
    ensures Decode(line + rest) == Typed(line) + Decode(rest)
    decreases |line|
  {
    hide Scan;
    if line == [] {
      assert line + rest == rest && Typed(line) + Decode(rest) == Decode(rest);
    } else {
      var before, c := line[..|line| - 1], line[|line| - 1];
      assert line + rest == before + ([c] + rest);
      DecodeLine(before, [c] + rest);
      ScanOne(Char(c), rest);
      assert Typed(before) + ([Char(c)] + Decode(rest)) == Typed(line) + Decode(rest);
    }
  }

  function TabsIn(keys: seq<Key>): nat {
    if keys == [] then 0 else (if keys[0].Tab? then 1 else 0) + TabsIn(keys[1..])
  }

  /** The events of a run of keys are those keys in order, with the answers to Tabs in their places: the answer to
      the line as it then was. */
  lemma {:induction false} EventsAreKeys(e: Editor, keys: seq<Key>, respond: (nat, Line) -> Line, tabs: nat, i: nat)
    requires e.Valid() && i < |keys|
    ensures |Events(e, keys, respond, tabs)| == |keys|
    ensures var events := Events(e, keys, respond, tabs);
      events[i] == if keys[i] != Tab then Pressed(keys[i])
                   else Completed(respond(tabs + TabsIn(keys[..i]), Run(e, events[..i]).buffer))
    decreases |keys|
  {
    hide Apply, Run;
    var event, rest := EventOf(e, keys[0], respond, tabs), keys[1..];
    var after, tabs' := Apply(e, event), if keys[0].Tab? then tabs + 1 else tabs;
    var events, later := Events(e, keys, respond, tabs), Events(after, rest, respond, tabs');
    if rest != [] { EventsAreKeys(after, rest, respond, tabs', if i == 0 then 0 else i - 1); }
    if i == 0 {
      NoEvents(e);
    } else {
      RunStartsWith(e, event, later[..i - 1]);
      assert events[..i] == [event] + later[..i - 1];
      assert keys[..i][0] == keys[0] && keys[..i][1..] == rest[..i - 1];
    }
  }

  lemma KeysOfLine(e: Editor, keys: seq<Key>, respond: (nat, Line) -> Line)
    requires e.Valid() && Tab !in keys
    ensures Events(e, keys, respond, 0) == AsEvents(keys)
  {
    var events := Events(e, keys, respond, 0);
    if keys != [] { EventsAreKeys(e, keys, respond, 0, 0); }
    forall i | 0 <= i < |keys| ensures i < |events| && events[i] == AsEvents(keys)[i] {
      assert keys[i] in keys;
      EventsAreKeys(e, keys, respond, 0, i);
    }
  }

  lemma {:induction false} NoTabTyped(line: Line)
    ensures Tab !in Typed(line)
    decreases |line|
  {
    if line != [] { NoTabTyped(line[..|line| - 1]); }
  }

  /** End to end: a line's bytes and a newline, on an empty buffer, submit just that line. */
  lemma TypedBytesAreSubmitted(e: Editor, line: Line, respond: (nat, Line) -> Line)
    requires e.Valid() && e.buffer == [] && line != []
    ensures var bytes: seq<Code> := line;
      Commands(e, Events(e, Decode(bytes + [10]), respond, 0)) == [line]
  {
    hide Commands, Events, Scan, Typed;
    DecodeLine(line, [10]);
    EnterIsNewline();
    NoTabTyped(line);
    KeysOfLine(e, Typed(line) + [Enter], respond);
    assert AsEvents(Typed(line) + [Enter]) == AsEvents(Typed(line)) + [Pressed(Enter)];
    TypedLineIsSubmitted(e, line);
  }

  lemma EnterIsNewline()
    ensures Decode([10]) == [Enter]
  {
    ScanOne(Enter, []);
    assert Encode(Enter) + [] == [10];
  }
}
