/** The console thread, which owns the line while it reads keys, and the main thread, which once per tick takes
    the submitted commands and then answers a Tab. Each step is what a thread does under one lock (or, for
    keys and log lines, one step of the console); steps of the two threads interleave freely. */
module AutoComplete {
  import opened Terminal
  import opened Keys
  import opened LineEditor
  import opened CommandQueue
  import opened EditorTheorems
  import opened Options

  /** Where the console thread is: reading keys, about to put a submitted command into the queue, or in the
      waiting loop of `awaitAutoComplete`. */
  datatype ConsoleAt = Reading | Pushing(command: Line) | Waiting

  /** Where the main thread is in `logicSimulation`: elsewhere; past its first lines, which act on a flagged
      reset; taking commands, with the queue locked; past that; past the check that a completion is awaited; with
      the input fetched for the hook; with an answer ready. */
  datatype MainAt =
    | Elsewhere
    | Ticking
    | Draining
    | Drained
    | Asked
    | Hooking(input: Line)
    | Answering(line: Line, byHook: bool)

  /** The queue, the commands taken from it so far with whether there was a hook for each, and those the hook
      got. A reset may be flagged; it was by a script, or by one of the commands taken since the tick began, when
      `earlier` had been taken. `resets` counts the resets acted on. */
  datatype Mail = Mail(queue: seq<Line>, taken: seq<Line>, hooked: seq<bool>, delivered: seq<Line>,
                       shouldReset: bool, earlier: nat, byScript: bool, resets: nat)

  datatype State = State(editor: Editor, awaiting: bool, input: Line, console: ConsoleAt, main: MainAt, mail: Mail,
                         tabs: nat, answered: nat, ignored: nat, events: seq<Event>)

  datatype Step =
    | Key(key: Key)                // console thread: any key but Tab
    | Push                         // console thread: the end of pushCommand
    | AskCompletion                // console thread: Tab, the first block of awaitAutoComplete
    | Poll                         // console thread: one turn of its waiting loop
    | LogLine                      // main thread: a log line
    | FlagReset                    // main thread: flagStateForReset, called by a script
    | StartTick                    // main thread: the check of shouldReset
    | LockQueue                    // main thread: begins to take commands
    | TakeCommand(hooked: bool)    // main thread: one command, with whether there is a hook now
    | UnlockQueue                  // main thread: has found the queue empty
    | Check                        // main thread: isAwaitingAutoComplete
    | FetchForHook                 // main thread: getAutoCompleteInput, into the hook's table
    | FetchWithoutHook             // main thread: getAutoCompleteInput, to send it back
    | HookReturns(line: Line)      // main thread: the hook leaves its response
    | Respond                      // main thread: respondToAutoComplete

  predicate Enabled(s: State, step: Step) {
    match step
    case Key(key) => s.console.Reading? && !key.Tab?
    case Push => s.console.Pushing? && !s.main.Draining?
    case AskCompletion => s.console.Reading?
    case Poll => s.console.Waiting?
    case LogLine => true
    case FlagReset => true
    case StartTick => s.main.Elsewhere?
    case LockQueue => s.main.Ticking?
    case TakeCommand(_) => s.main.Draining? && s.mail.queue != []
    case UnlockQueue => s.main.Draining? && s.mail.queue == []
    case Check => s.main.Drained?
    case FetchForHook => s.main.Asked?
    case FetchWithoutHook => s.main.Asked?
    case HookReturns(_) => s.main.Hooking?
    case Respond => s.main.Answering?
  }

  function Happens(s: State, event: Event): State
    requires s.editor.Valid()
  {
    s.(editor := Apply(s.editor, event), events := s.events + [event])
  }

  function Take(mail: Mail, hooked: bool): Mail
    requires mail.queue != []
  {
    var front := mail.queue[0];
    mail.(queue := mail.queue[1..], taken := mail.taken + [front], hooked := mail.hooked + [hooked],
          delivered := if Delivers(front, hooked) then mail.delivered + [front] else mail.delivered,
          shouldReset := mail.shouldReset || front == RESET_COMMAND)
  }

  /** A flagged reset is acted on, and the flag cleared. */
  function ActOnReset(mail: Mail): Mail {
    mail.(shouldReset := false, earlier := |mail.taken|, byScript := false,
          resets := mail.resets + if mail.shouldReset then 1 else 0)
  }

  function Next(s: State, step: Step): (t: State)
    requires s.editor.Valid() && Enabled(s, step)
    ensures t.editor.Valid()
  {
    match step
    case Key(key) =>
      var submitted := Submitted(s.editor, key);
      Happens(s, Pressed(key)).(console := if submitted == [] then Reading else Pushing(submitted[0]))
    case Push => s.(mail := s.mail.(queue := s.mail.queue + [s.console.command]), console := Reading)
    case AskCompletion => s.(awaiting := true, input := s.editor.buffer, console := Waiting, tabs := s.tabs + 1)
    case Poll => if s.awaiting then s else s.(console := Reading)
    case LogLine => Happens(s, Logged)
    case FlagReset => s.(mail := s.mail.(shouldReset := true, byScript := true))
    case StartTick => s.(main := Ticking, mail := ActOnReset(s.mail))
    case LockQueue => s.(main := Draining)
    case TakeCommand(hooked) =>
      var t := s.(mail := Take(s.mail, hooked));
      if s.mail.queue[0] == RESET_COMMAND then Happens(t, Logged) else t
    case UnlockQueue => s.(main := Drained)
    case Check => s.(main := if s.awaiting then Asked else Elsewhere)
    case FetchForHook => s.(main := Hooking(s.input))
    case FetchWithoutHook => s.(main := Answering(s.input, false))
    case HookReturns(line) => s.(main := Answering(line, true))
    case Respond =>
      if !s.awaiting then s.(main := Elsewhere, ignored := s.ignored + 1)
      else Happens(s, Completed(s.main.line)).(main := Elsewhere, awaiting := false, answered := s.answered + 1)
  }

  function Start(e: Editor): State {
    State(e, false, [], Reading, Elsewhere, Mail([], [], [], [], false, 0, false, 0), 0, 0, 0, [])
  }

  /** The state after an interleaving of the two threads; none if a step comes where it cannot. */
  function After(e: Editor, steps: seq<Step>): (r: Option<State>)
    requires e.Valid()
    ensures r.Some? ==> r.value.editor.Valid()
  {
    if steps == [] then Some(Start(e))
    else
      var before, step := After(e, steps[..|steps| - 1]), steps[|steps| - 1];
      if before.Some? && Enabled(before.value, step) then Some(Next(before.value, step)) else None
  }

  ghost predicate Reaches(e: Editor, steps: seq<Step>, s: State) {
    e.Valid() && After(e, steps) == Some(s)
  }

  /** The main thread has seen that a completion is awaited. */
  predicate IsAnswering(main: MainAt) {
    main.Asked? || main.Hooking? || main.Answering?
  }

  ghost predicate Handshake(s: State) {
    && (s.awaiting ==> s.console.Waiting? && s.input == s.editor.buffer)
    && (IsAnswering(s.main) ==> s.awaiting)
    && (s.main.Hooking? ==> s.main.input == s.input)
    && (s.main.Answering? && !s.main.byHook ==> s.main.line == s.input)
    && s.ignored == 0
    && s.tabs == s.answered + (if s.awaiting then 1 else 0)
  }

  /** Submitted commands the main thread has not taken yet. */
  function OnTheWay(s: State): seq<Line> {
    s.mail.queue + if s.console.Pushing? then [s.console.command] else []
  }

  ghost predicate MailIsRight(mail: Mail) {
    && |mail.hooked| == |mail.taken| && mail.delivered == Delivered(mail.taken, mail.hooked)
    && mail.earlier <= |mail.taken|
    && (mail.shouldReset <==> mail.byScript || RESET_COMMAND in mail.taken[mail.earlier..])
  }

  ghost predicate Consistent(e: Editor, s: State) {
    && e.Valid() && s.editor.Valid()
    && Handshake(s) && MailIsRight(s.mail)
    && s.editor == Run(e, s.events)
    && s.mail.taken + OnTheWay(s) == Commands(e, s.events)
  }

  lemma TakeIsRight(mail: Mail, hooked: bool, rest: seq<Line>)
    requires MailIsRight(mail) && mail.queue != []
    ensures var t := Take(mail, hooked);
      MailIsRight(t) && t.taken + (t.queue + rest) == mail.taken + (mail.queue + rest)
  {
    hide RESET_COMMAND, Delivered, Delivers;
    DeliveredOneMore(mail.taken, mail.hooked, mail.queue[0], hooked);
    assert mail.queue == [mail.queue[0]] + mail.queue[1..];
    assert (mail.taken + [mail.queue[0]])[mail.earlier..] == mail.taken[mail.earlier..] + [mail.queue[0]];
  }

  lemma HandshakeIsKept(s: State, step: Step)
    requires s.editor.Valid() && Handshake(s) && Enabled(s, step)
    ensures Handshake(Next(s, step))
  {
    hide Press, Show, Take;
  }

  lemma MailIsKept(s: State, step: Step)
    requires s.editor.Valid() && MailIsRight(s.mail) && Enabled(s, step)
    ensures var t := Next(s, step);
      MailIsRight(t.mail)
      && t.mail.taken + OnTheWay(t)
         == s.mail.taken + OnTheWay(s) + if step.Key? then Submitted(s.editor, step.key) else []
  {
    hide Apply, Delivered, RESET_COMMAND, Take;
    match step {
      case Push => assert s.mail.queue + [s.console.command] + [] == OnTheWay(s);
      case TakeCommand(hooked) =>
        TakeIsRight(s.mail, hooked, if s.console.Pushing? then [s.console.command] else []);
      case _ =>
    }
  }

  lemma NextIsConsistent(e: Editor, s: State, step: Step)
    requires Consistent(e, s) && Enabled(s, step)
    ensures Consistent(e, Next(s, step))
  {
    hide Run, Apply, Commands, Handshake, MailIsRight, OnTheWay, Submitted, RESET_COMMAND;
    HandshakeIsKept(s, step);
    MailIsKept(s, step);
    var event := match step
      case Key(key) => Pressed(key)
      case Respond => Completed(s.main.line)
      case _ => Logged;
    RunOneMore(e, s.events, event);
  }

  lemma {:induction false} ReachedIsConsistent(e: Editor, steps: seq<Step>, s: State)
    requires Reaches(e, steps, s)
    ensures Consistent(e, s)
    decreases |steps|
  {
    hide Next, Consistent, Enabled;
    if steps == [] {
      StartIsConsistent(e);
    } else {
      var before := After(e, steps[..|steps| - 1]);
      ReachedIsConsistent(e, steps[..|steps| - 1], before.value);
      NextIsConsistent(e, before.value, steps[|steps| - 1]);
    }
  }

  lemma StartIsConsistent(e: Editor)
    requires e.Valid()
    ensures Consistent(e, Start(e))
  {}

  /** In every interleaving, an answer about to be given still finds the line as the Tab left it, and the
      console thread waiting; so it takes effect, and the threads never both own the line. */
  lemma AnswerMeetsSnapshot(e: Editor, steps: seq<Step>, s: State)
    requires Reaches(e, steps, s)
    ensures IsAnswering(s.main) ==> s.awaiting && s.editor.buffer == s.input && s.console.Waiting?
    ensures s.main.Hooking? ==> s.main.input == s.editor.buffer
    ensures forall key :: Enabled(s, Key(key)) ==> !Enabled(s, Respond) && !s.awaiting
  {
    ReachedIsConsistent(e, steps, s);
  }

  /** Every Tab gets exactly one answer, and none is thrown away. */
  lemma EachTabAnsweredOnce(e: Editor, steps: seq<Step>, s: State)
    requires Reaches(e, steps, s)
    ensures s.ignored == 0 && s.answered <= s.tabs <= s.answered + 1
    ensures s.console.Reading? ==> s.tabs == s.answered
  {
    ReachedIsConsistent(e, steps, s);
  }

  lemma SentBack(s: State)
    requires s.editor.Valid() && s.awaiting && s.main.Answering? && s.main.line == s.editor.buffer
    ensures var t := Next(s, Respond);
      t.editor.buffer == s.editor.buffer && t.editor.cursorCol == |t.editor.buffer| && !t.awaiting
  {}

  /** Without a hook a Tab leaves the text alone and puts the cursor at its end. */
  lemma NoHookKeepsText(e: Editor, steps: seq<Step>, s: State)
    requires Reaches(e, steps, s) && s.main.Answering? && !s.main.byHook
    ensures s.editor.Valid()
    ensures var t := Next(s, Respond);
      t.editor.buffer == s.editor.buffer && t.editor.cursorCol == |t.editor.buffer| && !t.awaiting
  {
    hide After, Run, Next;
    ReachedIsConsistent(e, steps, s);
    SentBack(s);
  }

  /** Whatever the interleaving, the line is that of one sequential run of keys, log lines and completions,
      so what is proved of such runs (painting, history, drafts) holds of the two threads together. */
  lemma InterleavingIsARun(e: Editor, steps: seq<Step>, s: State)
    requires Reaches(e, steps, s)
    ensures s.editor == Run(e, s.events)
    ensures LookAlike(RowOf(e), Redrawn(e)) && NothingLeftThroughout(e, s.events) ==>
      LookAlike(RowOf(s.editor), Redrawn(s.editor))
  {
    ReachedIsConsistent(e, steps, s);
    if LookAlike(RowOf(e), Redrawn(e)) && NothingLeftThroughout(e, s.events) {
      CleanIffNothingLeft(e, s.events);
    }
  }

  /** Whatever the interleaving, the commands taken so far, those in the queue and the one about to be put there
      are the submitted ones, each once and in order, and the hook got those it should. */
  lemma CommandsAreTakenInOrder(e: Editor, steps: seq<Step>, s: State)
    requires Reaches(e, steps, s)
    ensures s.mail.taken + OnTheWay(s) == Commands(e, s.events)
    ensures |s.mail.hooked| == |s.mail.taken| && s.mail.delivered == Delivered(s.mail.taken, s.mail.hooked)
  {
    ReachedIsConsistent(e, steps, s);
  }

  /** The tick that begins acts on a reset exactly if a script or a command asked for one in the last. */
  lemma ResetIsActedOn(e: Editor, steps: seq<Step>, s: State)
    requires Reaches(e, steps, s) && s.main.Elsewhere?
    ensures s.editor.Valid() && s.mail.earlier <= |s.mail.taken|
    ensures var asked := s.mail.byScript || RESET_COMMAND in s.mail.taken[s.mail.earlier..];
      var t := Next(s, StartTick);
      !t.mail.shouldReset && t.mail.resets == s.mail.resets + if asked then 1 else 0
  {
    hide RESET_COMMAND;
    ReachedIsConsistent(e, steps, s);
  }

  function Always(n: nat): (hooked: seq<bool>)
    ensures |hooked| == n
  {
    seq(n, i => true)
  }

  /** While there is a hook: what it got, and what it will get of the commands on their way, is what was
      submitted, but for the resets. */
  lemma NoCommandIsLost(e: Editor, steps: seq<Step>, s: State)
    requires Reaches(e, steps, s) && false !in s.mail.hooked
    ensures var commands, coming := Commands(e, s.events), OnTheWay(s);
      && s.mail.delivered + Delivered(coming, Always(|coming|)) == Delivered(commands, Always(|commands|))
      && (RESET_COMMAND !in commands ==> s.mail.delivered + coming == commands)
  {
    hide Delivered, Run, Commands, After, RESET_COMMAND;
    var commands, taken, coming := Commands(e, s.events), s.mail.taken, OnTheWay(s);
    CommandsAreTakenInOrder(e, steps, s);
    AllHooked(s.mail.hooked);
    assert Always(|taken|) + Always(|coming|) == Always(|commands|);
    DeliveredInParts(taken, Always(|taken|), coming, Always(|coming|));
    if RESET_COMMAND !in commands {
      assert forall command :: command in taken || command in coming ==> command in commands;
      DeliveredWhole(taken, Always(|taken|));
    }
  }

  lemma AllHooked(hooked: seq<bool>)
    requires false !in hooked
    ensures hooked == Always(|hooked|)
  {
    forall i | 0 <= i < |hooked| ensures hooked[i] {
      assert hooked[i] in hooked;
    }
  }

  lemma OneStepFurther(e: Editor, steps: seq<Step>, s: State, step: Step)
    requires Reaches(e, steps, s) && s.editor.Valid() && Enabled(s, step)
    ensures Reaches(e, steps + [step], Next(s, step))
  {
    var longer := steps + [step];
    assert longer[..|longer| - 1] == steps;
  }
}
