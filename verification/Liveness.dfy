/** What the two threads get done: the shortest way to the end of a wait, and what every schedule achieves once
    the main thread has made enough steps. */
module Liveness {
  import opened LineEditor
  import opened AutoComplete
  import opened CommandQueue
  import opened Terminal

  /** A step towards the console thread reading keys and the queue being empty. */
  function Onward(s: State): Step {
    if s.console.Pushing? && !s.main.Draining? then Push
    else if s.console.Waiting? && !s.awaiting then Poll
    else
      match s.main
      case Elsewhere => StartTick
      case Ticking => LockQueue
      case Draining => if s.mail.queue != [] then TakeCommand(true) else UnlockQueue
      case Drained => Check
      case Asked => FetchWithoutHook
      case Hooking(input) => HookReturns(input)
      case Answering(_, _) => Respond
  }

  predicate Settled(s: State) {
    s.console.Reading? && s.mail.queue == []
  }

  /** How many such steps it takes. */
  ghost function Distance(s: State): nat {
    var n := |s.mail.queue|;
    match s.console
    case Reading => ToTake(s.main, n)
    case Pushing(_) => if s.main.Draining? then n + 6 else 1 + ToTake(s.main, n + 1)
    case Waiting =>
      if !s.awaiting then 1 + ToTake(s.main, n)
      else
        match s.main
        case Elsewhere => n + 7
        case Ticking => n + 6
        case Draining => n + 5
        case Drained => 4 + ToTake(Elsewhere, n)
        case Asked => 3 + ToTake(Elsewhere, n)
        case Hooking(_) => 3 + ToTake(Elsewhere, n)
        case Answering(_, _) => 2 + ToTake(Elsewhere, n)
  }

  /** Steps until `n` commands have been taken. */
  ghost function ToTake(main: MainAt, n: nat): nat {
    if n == 0 then 0
    else n + if main.Draining? then 0 else if main.Ticking? then 1 else if main.Drained? then 3 else 2
  }

  lemma DistanceBounds(s: State)
    ensures Distance(s) <= |s.mail.queue| + 7
  {}

  lemma WaitGetsShorter(s: State)
    requires s.editor.Valid() && Handshake(s) && s.console.Waiting?
    ensures Enabled(s, Onward(s)) && Distance(Next(s, Onward(s))) < Distance(s)
  {
    hide Apply, RESET_COMMAND, Delivers, Submitted;
  }

  lemma QueueGetsShorter(s: State)
    requires s.editor.Valid() && Handshake(s) && !s.console.Waiting? && !Settled(s)
    ensures Enabled(s, Onward(s)) && Distance(Next(s, Onward(s))) < Distance(s)
  {
    hide Apply, RESET_COMMAND, Delivers, Submitted;
  }

  lemma OnwardGetsCloser(s: State)
    requires s.editor.Valid() && Handshake(s) && !Settled(s)
    ensures Enabled(s, Onward(s)) && Distance(Next(s, Onward(s))) < Distance(s)
  {
    hide Next, Onward, Enabled, Distance;
    if s.console.Waiting? { WaitGetsShorter(s); } else { QueueGetsShorter(s); }
  }

  /** No Tab and no command is left waiting for ever by the protocol itself: from wherever the threads are, a few
      steps bring the console thread back to reading keys and empty the queue. */
  lemma WaitingCanEnd(e: Editor, steps: seq<Step>, s: State) returns (more: seq<Step>, t: State)
    requires Reaches(e, steps, s)
    ensures |more| <= |s.mail.queue| + 7 && Reaches(e, steps + more, t) && Settled(t)
    ensures t.mail.taken == Commands(e, t.events)
  {
    hide After, Run, Next, Distance, Onward, Enabled, Commands, MailIsRight, Handshake;
    more, t := [], s;
    assert steps + [] == steps;
    DistanceBounds(s);
    while !Settled(t)
      invariant Reaches(e, steps + more, t)
      invariant |more| + Distance(t) <= |s.mail.queue| + 7
      decreases Distance(t)
    {
      ReachedIsConsistent(e, steps + more, t);
      var step := Onward(t);
      OnwardGetsCloser(t);
      OneStepFurther(e, steps + more, t, step);
      assert (steps + more) + [step] == steps + (more + [step]);
      more, t := more + [step], Next(t, step);
    }
    ReachedIsConsistent(e, steps + more, t);
    assert t.mail.taken + [] == t.mail.taken;
  }

  // ---------------------------------------------------------------- every schedule

  /** A step of the main thread through `logicSimulation`. */
  predicate IsMainStep(step: Step) {
    match step
    case Key(_) => false
    case Push => false
    case AskCompletion => false
    case Poll => false
    case LogLine => false
    case FlagReset => false
    case _ => true
  }

  function MainSteps(steps: seq<Step>): nat {
    if steps == [] then 0
    else MainSteps(steps[..|steps| - 1]) + if IsMainStep(steps[|steps| - 1]) then 1 else 0
  }

  /** How many of these it takes to answer the Tab that is awaited. */
  function UntilAnswer(main: MainAt, queued: nat): nat {
    match main
    case Elsewhere => queued + 7
    case Ticking => queued + 6
    case Draining => queued + 5
    case Drained => 4
    case Asked => 3
    case Hooking(_) => 2
    case Answering(_, _) => 1
  }

  /** The Tab awaited at `s` is answered by `t`, or it is `steps` closer to that. */
  ghost predicate AnswerNears(s: State, t: State, steps: nat) {
    || t.answered > s.answered
    || (t.answered == s.answered && t.awaiting
        && UntilAnswer(t.main, |t.mail.queue|) + steps <= UntilAnswer(s.main, |s.mail.queue|))
  }

  lemma OneStepNearer(s: State, t: State, steps: nat, step: Step)
    requires t.editor.Valid() && Handshake(t) && Enabled(t, step) && AnswerNears(s, t, steps)
    ensures AnswerNears(s, Next(t, step), steps + if IsMainStep(step) then 1 else 0)
  {
    hide Apply, RESET_COMMAND, Delivers, Submitted;
  }

  lemma {:induction false} AnswerComesNearer(e: Editor, steps: seq<Step>, s: State, more: seq<Step>, t: State)
    requires Reaches(e, steps, s) && s.awaiting && Reaches(e, steps + more, t)
    ensures AnswerNears(s, t, MainSteps(more))
    decreases |more|
  {
    hide After, Next, Enabled, Handshake, MailIsRight, IsMainStep, Run, Commands;
    if more == [] {
      assert steps + more == steps;
    } else {
      var fewer, step := more[..|more| - 1], more[|more| - 1];
      var before := StepBefore(e, steps, more, t);
      ReachedIsConsistent(e, steps + fewer, before);
      AnswerComesNearer(e, steps, s, fewer, before);
      OneStepNearer(s, before, MainSteps(fewer), step);
    }
  }

  lemma StepBefore(e: Editor, steps: seq<Step>, more: seq<Step>, t: State) returns (before: State)
    requires Reaches(e, steps + more, t) && more != []
    ensures Reaches(e, steps + more[..|more| - 1], before) && before.editor.Valid()
    ensures Enabled(before, more[|more| - 1]) && t == Next(before, more[|more| - 1])
  {
    hide Next, Enabled;
    var longer := steps + more;
    assert longer[..|longer| - 1] == steps + more[..|more| - 1];
    before := After(e, longer[..|longer| - 1]).value;
  }

  /** However the threads interleave, a Tab is answered once the main thread has made that many steps: no
      schedule can put the answer off. */
  lemma EveryScheduleAnswers(e: Editor, steps: seq<Step>, s: State, more: seq<Step>, t: State)
    requires Reaches(e, steps, s) && s.awaiting && Reaches(e, steps + more, t)
    requires MainSteps(more) >= |s.mail.queue| + 7
    ensures t.answered > s.answered
  {
    AnswerComesNearer(e, steps, s, more, t);
  }

  /** How many of these it takes to take `left` commands that are queued. */
  function UntilTaken(main: MainAt, left: nat): nat {
    match main
    case Draining => left
    case Ticking => left + 1
    case Elsewhere => left + 2
    case Answering(_, _) => left + 3
    case Hooking(_) => left + 4
    case Asked => left + 5
    case Drained => left + 6
  }

  /** `left` of the commands queued at `s` are still queued at `t`, and no other is ahead of them; `steps` have
      been made towards taking them. */
  ghost predicate TakingNears(s: State, t: State, left: nat, steps: nat) {
    && s.mail.taken + s.mail.queue <= t.mail.taken + t.mail.queue
    && |s.mail.taken + s.mail.queue| <= |t.mail.taken| + left
    && (left > 0 ==>
      && |s.mail.taken + s.mail.queue| == |t.mail.taken| + left
      && UntilTaken(t.main, left) + steps <= UntilTaken(s.main, |s.mail.queue|))
  }

  lemma MailOnlyGrows(t: State, step: Step)
    requires t.editor.Valid() && Enabled(t, step)
    ensures t.mail.taken + t.mail.queue <= Next(t, step).mail.taken + Next(t, step).mail.queue
    ensures |Next(t, step).mail.taken| == |t.mail.taken| + if step.TakeCommand? then 1 else 0
  {
    hide Apply, RESET_COMMAND, Delivers, Submitted;
    if step.TakeCommand? { assert t.mail.queue == [t.mail.queue[0]] + t.mail.queue[1..]; }
  }

  lemma OneStepOfTaking(s: State, t: State, left: nat, steps: nat, step: Step)
    requires t.editor.Valid() && Enabled(t, step) && TakingNears(s, t, left, steps)
    ensures var nowLeft := if step.TakeCommand? && left > 0 then left - 1 else left;
      TakingNears(s, Next(t, step), nowLeft, steps + if IsMainStep(step) then 1 else 0)
  {
    hide Apply, RESET_COMMAND, Submitted, Take, ActOnReset;
    MailOnlyGrows(t, step);
  }

  lemma {:induction false} TakingComesNearer(e: Editor, steps: seq<Step>, s: State, more: seq<Step>, t: State)
      returns (left: nat)
    requires Reaches(e, steps, s) && Reaches(e, steps + more, t)
    ensures TakingNears(s, t, left, MainSteps(more))
    decreases |more|
  {
    hide After, Next, Enabled, IsMainStep;
    if more == [] {
      assert steps + more == steps;
      left := |s.mail.queue|;
    } else {
      var fewer, step := more[..|more| - 1], more[|more| - 1];
      var before := StepBefore(e, steps, more, t);
      left := TakingComesNearer(e, steps, s, fewer, before);
      OneStepOfTaking(s, before, left, MainSteps(fewer), step);
      if step.TakeCommand? && left > 0 { left := left - 1; }
    }
  }

  /** And the commands queued now are all taken by then, before any that is submitted later. */
  lemma EveryScheduleTakes(e: Editor, steps: seq<Step>, s: State, more: seq<Step>, t: State)
    requires Reaches(e, steps, s) && Reaches(e, steps + more, t)
    requires MainSteps(more) >= |s.mail.queue| + 6
    ensures s.mail.taken + s.mail.queue <= t.mail.taken
  {
    hide After;
    var left := TakingComesNearer(e, steps, s, more, t);
    assert s.mail.taken + s.mail.queue == (t.mail.taken + t.mail.queue)[..|s.mail.taken + s.mail.queue|];
  }
}
