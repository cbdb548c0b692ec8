/** How the state of the two threads follows from the steps they made: what was recorded, and whose answer a
    completion is. */
module Interleavings {
  import opened Keys
  import opened LineEditor
  import opened CommandQueue
  import opened AutoComplete
  import opened Liveness
  import opened Terminal

  // ---------------------------------------------------------------- the hook's completion

  ghost predicate NoMainStep(steps: seq<Step>) {
    forall step :: step in steps ==> !IsMainStep(step)
  }

  /** An answer in the making is not changed by what the console thread, log lines and scripts do meanwhile. */
  lemma {:induction false} AnswerStays(e: Editor, steps: seq<Step>, s: State, between: seq<Step>, t: State)
    requires Reaches(e, steps, s) && s.main.Answering? && Reaches(e, steps + between, t) && NoMainStep(between)
    ensures t.main == s.main && t.answered == s.answered
    decreases |between|
  {
    hide After, Next, Enabled, IsMainStep;
    if between == [] {
      assert steps + between == steps;
    } else {
      var fewer, step := between[..|between| - 1], between[|between| - 1];
      assert between == fewer + [step];
      var before := StepBefore(e, steps, between, t);
      AnswerStays(e, steps, s, fewer, before);
      assert step in between;
      OtherStepsKeepMain(before, step);
    }
  }

  lemma OtherStepsKeepMain(s: State, step: Step)
    requires s.editor.Valid() && Enabled(s, step) && !IsMainStep(step)
    ensures Next(s, step).main == s.main && Next(s, step).answered == s.answered
  {
    hide Apply, Submitted;
  }

  lemma ResponseIsShown(e: Editor, steps: seq<Step>, s: State)
    requires Reaches(e, steps, s) && s.main.Answering?
    ensures s.editor.Valid()
    ensures var t := Next(s, Respond);
      t.editor.buffer == s.main.line && t.editor.cursorCol == |s.main.line|
      && !t.awaiting && t.answered == s.answered + 1
  {
    hide After, Run, Commands, MailIsRight;
    ReachedIsConsistent(e, steps, s);
  }

  /** What the hook leaves as its response becomes the line, with the cursor at its end, whatever the console
      thread, log lines and scripts do before the main thread responds. */
  lemma HookAnswerIsShown(e: Editor, steps: seq<Step>, s: State, line: Line, between: seq<Step>, t: State)
    requires Reaches(e, steps, s) && s.main.Hooking? && NoMainStep(between)
    requires Reaches(e, steps + [HookReturns(line)] + between + [Respond], t)
    ensures t.editor.buffer == line && t.editor.cursorCol == |line|
    ensures !t.awaiting && t.answered == s.answered + 1
  {
    hide After, Enabled, NoMainStep;
    var returned := steps + [HookReturns(line)];
    var u := StepBefore(e, returned + between, [Respond], t);
    assert [Respond][..0] == [] && (returned + between) + [] == returned + between;
    var r := HookHasReturned(e, steps, s, line, between, u);
    AnswerStays(e, returned, r, between, u);
    ResponseIsShown(e, returned + between, u);
  }

  lemma HookHasReturned(e: Editor, steps: seq<Step>, s: State, line: Line, between: seq<Step>, u: State)
      returns (r: State)
    requires Reaches(e, steps, s) && s.main.Hooking?
    requires Reaches(e, steps + [HookReturns(line)] + between, u)
    ensures Reaches(e, steps + [HookReturns(line)], r)
    ensures r.main == Answering(line, true) && r.answered == s.answered
  {
    hide After;
    ReachedIsConsistent(e, steps, s);
    r := Next(s, HookReturns(line));
    OneStepFurther(e, steps, s, HookReturns(line));
  }

  // ---------------------------------------------------------------- what is recorded

  /** An event without the line of a completion. */
  datatype Mark = Typing(key: Key) | LineLogged | Answered

  function MarksOf(events: seq<Event>): seq<Mark> {
    if events == [] then []
    else
      MarksOf(events[..|events| - 1]) +
      match events[|events| - 1]
      case Pressed(key) => [Typing(key)]
      case Logged => [LineLogged]
      case Completed(_) => [Answered]
  }

  lemma MarksOneMore(events: seq<Event>, event: Event)
    ensures MarksOf(events + [event]) == MarksOf(events) +
      match event
      case Pressed(key) => [Typing(key)]
      case Logged => [LineLogged]
      case Completed(_) => [Answered]
  {
    assert (events + [event])[..|events|] == events;
  }

  /** What can be told from the steps and the commands taken: the keys, log lines and answers, how many Tabs and
      answers there were, whether there was a hook for each command taken, how many had been taken when the tick
      began, and whether a script has asked for a reset since. */
  datatype Account =
    Account(marks: seq<Mark>, tabs: nat, answers: nat, hooked: seq<bool>, earlier: nat, byScript: bool)

  function AccountOf(steps: seq<Step>, taken: seq<Line>): Account {
    if steps == [] then Account([], 0, 0, [], 0, false)
    else
      var a := AccountOf(steps[..|steps| - 1], taken);
      match steps[|steps| - 1]
      case Key(key) => a.(marks := a.marks + [Typing(key)])
      case LogLine => a.(marks := a.marks + [LineLogged])
      case AskCompletion => a.(tabs := a.tabs + 1)
      case Respond => a.(marks := a.marks + [Answered], answers := a.answers + 1)
      case TakeCommand(hooked) =>
        var reset := |a.hooked| < |taken| && taken[|a.hooked|] == RESET_COMMAND;
        a.(marks := if reset then a.marks + [LineLogged] else a.marks, hooked := a.hooked + [hooked])
      case StartTick => a.(earlier := |a.hooked|, byScript := false)
      case FlagReset => a.(byScript := true)
      case _ => a
  }

  lemma {:induction false} LaterCommandsDoNotMatter(steps: seq<Step>, taken: seq<Line>, more: seq<Line>)
    requires |AccountOf(steps, taken).hooked| <= |taken|
    ensures AccountOf(steps, taken + more) == AccountOf(steps, taken)
  {
    hide RESET_COMMAND;
    if steps != [] { LaterCommandsDoNotMatter(steps[..|steps| - 1], taken, more); }
  }

  ghost predicate Recorded(a: Account, s: State) {
    && MarksOf(s.events) == a.marks && s.tabs == a.tabs && s.answered == a.answers
    && s.mail.hooked == a.hooked && s.mail.earlier == a.earlier && s.mail.byScript == a.byScript
  }

  lemma StepIsRecorded(steps: seq<Step>, s: State, step: Step)
    requires s.editor.Valid() && Handshake(s) && MailIsRight(s.mail) && Enabled(s, step)
    requires Recorded(AccountOf(steps, s.mail.taken), s)
    ensures Recorded(AccountOf(steps + [step], Next(s, step).mail.taken), Next(s, step))
  {
    hide Apply, MarksOf, Submitted, RESET_COMMAND, Delivered;
    assert (steps + [step])[..|steps|] == steps;
    match step {
      case Key(key) => MarksOneMore(s.events, Pressed(key));
      case LogLine => MarksOneMore(s.events, Logged);
      case TakeCommand(_) =>
        MarksOneMore(s.events, Logged);
        LaterCommandsDoNotMatter(steps, s.mail.taken, [s.mail.queue[0]]);
      case Respond => MarksOneMore(s.events, Completed(s.main.line));
      case _ =>
    }
  }

  /** Nothing is recorded that was not done, and all that was: the events of the run are the keys pressed, the lines
      logged, by resets too, and the answers given, in order. */
  lemma {:induction false} StepsAreRecorded(e: Editor, steps: seq<Step>, s: State)
    requires Reaches(e, steps, s)
    ensures Recorded(AccountOf(steps, s.mail.taken), s)
    decreases |steps|
  {
    hide Next, Enabled, Recorded, AccountOf, Handshake, MailIsRight, Run, Commands;
    if steps == [] {
      NothingRecorded(e);
    } else {
      var before, step := steps[..|steps| - 1], steps[|steps| - 1];
      var b := After(e, before).value;
      assert steps == before + [step];
      StepsAreRecorded(e, before, b);
      ReachedIsConsistent(e, before, b);
      StepIsRecorded(before, b, step);
    }
  }

  lemma NothingRecorded(e: Editor)
    requires e.Valid()
    ensures Recorded(AccountOf([], []), Start(e))
  {}

  /** While the main thread takes commands, the queue is its own: none is pushed. */
  lemma LockedQueueOnlyShrinks(s: State, step: Step)
    requires s.editor.Valid() && s.main.Draining? && Enabled(s, step)
    ensures var q := Next(s, step).mail.queue;
      q == s.mail.queue || (s.mail.queue != [] && q == s.mail.queue[1..])
  {
    hide Apply, Submitted, RESET_COMMAND;
  }
}
