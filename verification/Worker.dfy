/** A worker's two message channels. Each is a queue under its own lock, from which a push past the limit
    drops the oldest message. A run is any interleaving of the two threads' locked operations. */
module Workers {
  import opened Options

  type Message = string

  const LIMIT := 2047

  // ---------------------------------------------------------------- one channel

  /** The queue, every message ever pushed, and the positions in `sent` of the messages taken out and of
      those dropped. */
  datatype Channel = Channel(queue: seq<Message>, sent: seq<Message>, received: seq<nat>, dropped: seq<nat>) {
    /** Position of the front of the queue. */
    function Head(): int { |sent| - |queue| }
  }

  datatype Op = Push(message: Message) | Pop

  const EMPTY := Channel([], [], [], [])

  function Do(c: Channel, op: Op): Channel
    requires |c.queue| <= |c.sent|
  {
    match op
    case Push(message) =>
      var queue := c.queue + [message];
      if |queue| > LIMIT
      then Channel(queue[1..], c.sent + [message], c.received, c.dropped + [c.Head()])
      else Channel(queue, c.sent + [message], c.received, c.dropped)
    case Pop =>
      if c.queue == [] then c
      else Channel(c.queue[1..], c.sent, c.received + [c.Head()], c.dropped)
  }

  function Run(ops: seq<Op>): (c: Channel)
    ensures |c.queue| <= |c.sent|
  {
    if ops == [] then EMPTY else Do(Run(ops[..|ops| - 1]), ops[|ops| - 1])
  }

  ghost predicate Increasing(s: seq<nat>) {
    forall i, j :: 0 <= i < j < |s| ==> s[i] < s[j]
  }

  /** Everything before the queue has been received or dropped, and not both. */
  ghost predicate Settled(c: Channel) {
    && (forall i :: 0 <= i < c.Head() <==> i in c.received || i in c.dropped)
    && (forall i :: i in c.received ==> i !in c.dropped)
    && |c.received| + |c.dropped| == c.Head()
  }

  ghost predicate LossyFifo(c: Channel) {
    && |c.queue| <= |c.sent| && |c.queue| <= LIMIT
    && c.queue == c.sent[c.Head()..]
    && Increasing(c.received) && Increasing(c.dropped)
    && Settled(c)
  }

  lemma AppendIncreasing(s: seq<nat>, n: nat)
    requires Increasing(s) && forall i :: i in s ==> i < n
    ensures Increasing(s + [n])
  {
    forall i | 0 <= i < |s|
      ensures s[i] < n
    {
      assert s[i] in s;
    }
  }

  lemma SettledOneMore(c: Channel, received: seq<nat>, dropped: seq<nat>, queue: seq<Message>, sent: seq<Message>)
    requires Settled(c) && c.Head() >= 0
    requires |sent| - |queue| == c.Head() + 1
    requires (received == c.received + [c.Head()] && dropped == c.dropped)
          || (received == c.received && dropped == c.dropped + [c.Head()])
    ensures Settled(Channel(queue, sent, received, dropped))
  {
    assert c.Head() !in c.received && c.Head() !in c.dropped;
    assert forall i :: i in received || i in dropped <==> i in c.received || i in c.dropped || i == c.Head();
  }

  lemma DoKeepsFifo(c: Channel, op: Op)
    requires LossyFifo(c)
    ensures LossyFifo(Do(c, op))
  {
    var d := Do(c, op);
    if op.Push? || c.queue != [] {
      assert d.queue == d.sent[d.Head()..];
      if d.Head() > c.Head() {
        AppendIncreasing(c.received, c.Head());
        AppendIncreasing(c.dropped, c.Head());
        SettledOneMore(c, d.received, d.dropped, d.queue, d.sent);
      } else {
        assert d.received == c.received && d.dropped == c.dropped;
      }
    }
  }

  /** Whatever the pushes and pops: the queue is the end of what was sent, at most 2047 messages; the
      received messages are an ordered, repetition-free selection of the others, and the rest of those
      were dropped. */
  lemma {:induction false} RunIsLossyFifo(ops: seq<Op>)
    ensures LossyFifo(Run(ops))
  {
    if ops != [] {
      RunIsLossyFifo(ops[..|ops| - 1]);
      DoKeepsFifo(Run(ops[..|ops| - 1]), ops[|ops| - 1]);
    }
  }

  /** Message `i` is lost exactly when message `i + 2047` is pushed before `i` is taken out. */
  lemma DroppedIff(ops: seq<Op>, i: nat)
    ensures i in Run(ops).dropped <==> i + LIMIT < |Run(ops).sent| && i !in Run(ops).received
  {
    RunIsLossyFifo(ops);
    if i in Run(ops).dropped { DropNeedsLaterPush(ops, i); }
  }

  lemma {:induction false} DropNeedsLaterPush(ops: seq<Op>, i: nat)
    requires i in Run(ops).dropped
    ensures i + LIMIT < |Run(ops).sent|
  {
    var before := ops[..|ops| - 1];
    RunIsLossyFifo(before);
    if i in Run(before).dropped { DropNeedsLaterPush(before, i); }
  }

  /** Nothing is ever lost exactly when the backlog of unreceived messages never exceeds 2047. */
  lemma {:induction false} LosslessIffBacklogBounded(ops: seq<Op>)
    ensures Run(ops).dropped == [] <==> BacklogBounded(ops)
  {
    if ops != [] {
      var before := ops[..|ops| - 1];
      LosslessIffBacklogBounded(before);
      RunIsLossyFifo(before);
      RunIsLossyFifo(ops);
    }
  }

  /** After every operation of the run, at most 2047 of the sent messages are unreceived. */
  ghost predicate BacklogBounded(ops: seq<Op>) {
    |Run(ops).sent| - |Run(ops).received| <= LIMIT && (ops == [] || BacklogBounded(ops[..|ops| - 1]))
  }

  /** Without loss, what has been received is the beginning of what was sent, in order. */
  lemma {:induction false} LosslessMeansPrefix(ops: seq<Op>)
    requires Run(ops).dropped == []
    ensures |Run(ops).received| <= |Run(ops).sent|
    ensures forall k :: 0 <= k < |Run(ops).received| ==> Run(ops).received[k] == k
  {
    RunIsLossyFifo(ops);
    if ops != [] {
      var before := ops[..|ops| - 1];
      LosslessMeansPrefix(before);
      RunIsLossyFifo(before);
    }
  }

  // ---------------------------------------------------------------- both channels, two threads

  /** What the threads do: the main thread's calls, and the calls of the worker's script. */
  datatype Event = MainSends(message: Message) | MainReceives | ScriptSends(message: Message) | ScriptReceives | Stop

  function Stopped(events: seq<Event>): bool { Stop in events }

  /** What an event does on the channel to the worker; once stopped, the main thread pushes nothing more. */
  function OnToWorker(stopped: bool, event: Event): seq<Op> {
    if event.MainSends? && !stopped then [Push(event.message)]
    else if event.ScriptReceives? then [Pop]
    else []
  }

  function OnFromWorker(event: Event): seq<Op> {
    if event.ScriptSends? then [Push(event.message)]
    else if event.MainReceives? then [Pop]
    else []
  }

  function ToWorker(events: seq<Event>): seq<Op> {
    if events == [] then []
    else
      var before := events[..|events| - 1];
      ToWorker(before) + OnToWorker(Stopped(before), events[|events| - 1])
  }

  function FromWorker(events: seq<Event>): seq<Op> {
    if events == [] then [] else FromWorker(events[..|events| - 1]) + OnFromWorker(events[|events| - 1])
  }

  /** What the main thread has sent: its messages, but for those after a stop. */
  function SentToWorker(events: seq<Event>): seq<Message> {
    if events == [] then []
    else
      var before, last := events[..|events| - 1], events[|events| - 1];
      match last
      case MainSends(message) => if Stop in before then SentToWorker(before) else SentToWorker(before) + [message]
      case _ => SentToWorker(before)
  }

  /** What the script has sent: all its messages, whether stopped or not. */
  function SentFromWorker(events: seq<Event>): seq<Message> {
    if events == [] then []
    else
      var before, last := events[..|events| - 1], events[|events| - 1];
      match last
      case ScriptSends(message) => SentFromWorker(before) + [message]
      case _ => SentFromWorker(before)
  }

  /** The channels carry what the threads send: these messages, in this order, and no others. */
  lemma {:induction false} ChannelsCarryMessages(events: seq<Event>)
    ensures Run(ToWorker(events)).sent == SentToWorker(events)
    ensures Run(FromWorker(events)).sent == SentFromWorker(events)
    decreases |events|
  {
    hide Run, ToWorker, FromWorker;
    if events == [] {
      NothingYet();
    } else {
      var before, last := events[..|events| - 1], events[|events| - 1];
      assert events == before + [last];
      ChannelsCarryMessages(before);
      EventsOneMore(before, last);
    }
  }

  lemma NothingYet()
    ensures Run(ToWorker([])) == EMPTY && Run(FromWorker([])) == EMPTY
  {}

  /** A message is received at a receive of the other end, and at no other event: the next one, if there is one. */
  lemma ReceivedAtReceives(events: seq<Event>, event: Event)
    ensures var c, d := Run(ToWorker(events)), Run(ToWorker(events + [event]));
      var next := |c.received| + |c.dropped|;
      d.received == c.received + if event.ScriptReceives? && next < |SentToWorker(events)| then [next] else []
    ensures var c, d := Run(FromWorker(events)), Run(FromWorker(events + [event]));
      var next := |c.received| + |c.dropped|;
      d.received == c.received + if event.MainReceives? && next < |SentFromWorker(events)| then [next] else []
  {
    hide Run, ToWorker, FromWorker, SentToWorker, SentFromWorker;
    EventsOneMore(events, event);
    ChannelsCarryMessages(events);
    RunIsLossyFifo(ToWorker(events));
    RunIsLossyFifo(FromWorker(events));
  }

  /** The last messages, as many as a queue holds. */
  function LastOf(messages: seq<Message>): seq<Message> {
    if |messages| > LIMIT then messages[|messages| - LIMIT..] else messages
  }

  class Worker {
    var stopped: bool
    var sendMessageQueue: seq<Message>
    var receiveMessageQueue: seq<Message>
    ghost var events: seq<Event>

    /** The queues are what the run so far makes of the two channels. */
    ghost predicate Valid()
      reads this
    {
      && stopped == Stopped(events)
      && sendMessageQueue == Run(ToWorker(events)).queue
      && receiveMessageQueue == Run(FromWorker(events)).queue
    }

    constructor ()
      ensures Valid() && events == []
    {
      stopped, sendMessageQueue, receiveMessageQueue, events := false, [], [], [];
      new;
      assert Run([]) == EMPTY;
    }

    method StopWorker()
      requires Valid()
      modifies this
      ensures Valid() && events == old(events) + [Stop]
      ensures stopped && sendMessageQueue == old(sendMessageQueue) && receiveMessageQueue == old(receiveMessageQueue)
    {
      hide Run, ToWorker, FromWorker, Stopped;
      EventsOneMore(events, Stop);
      stopped := true;
      events := events + [Stop];
    }

    method SendMessage(message: Message)
      requires Valid()
      modifies this
      ensures Valid() && events == old(events) + [MainSends(message)]
      ensures stopped == old(stopped) && receiveMessageQueue == old(receiveMessageQueue)
      ensures sendMessageQueue
           == if stopped then old(sendMessageQueue) else LastOf(old(sendMessageQueue) + [message])
    {
      RunIsLossyFifo(ToWorker(events));
      hide Run, ToWorker, FromWorker, Stopped;
      EventsOneMore(events, MainSends(message));
      events := events + [MainSends(message)];
      if stopped { return; }
      sendMessageQueue := sendMessageQueue + [message];
      if |sendMessageQueue| > LIMIT {
        sendMessageQueue := sendMessageQueue[1..];
      }
    }

    /** The script's `sendMessage`, which goes on working after a stop. */
    method ScriptSendMessage(message: Message)
      requires Valid()
      modifies this
      ensures Valid() && events == old(events) + [ScriptSends(message)]
      ensures stopped == old(stopped) && sendMessageQueue == old(sendMessageQueue)
      ensures receiveMessageQueue == LastOf(old(receiveMessageQueue) + [message])
    {
      RunIsLossyFifo(FromWorker(events));
      hide Run, ToWorker, FromWorker, Stopped;
      EventsOneMore(events, ScriptSends(message));
      events := events + [ScriptSends(message)];
      receiveMessageQueue := receiveMessageQueue + [message];
      if |receiveMessageQueue| > LIMIT {
        receiveMessageQueue := receiveMessageQueue[1..];
      }
    }

    /** Nothing when the queue is empty, otherwise the oldest message still there, as it was sent. */
    method ReceiveMessage() returns (r: Option<Message>)
      requires Valid()
      modifies this
      ensures Valid() && events == old(events) + [MainReceives]
      ensures Taken(Run(FromWorker(old(events))), SentFromWorker(old(events)), r)
      ensures stopped == old(stopped) && sendMessageQueue == old(sendMessageQueue)
    {
      hide Run, ToWorker, FromWorker, Stopped, Taken;
      EventsOneMore(events, MainReceives);
      FrontIsTaken(FromWorker(events));
      ChannelsCarryMessages(events);
      events := events + [MainReceives];
      if receiveMessageQueue == [] { return None; }
      var message := receiveMessageQueue[0];
      receiveMessageQueue := receiveMessageQueue[1..];
      r := Some(message);
    }

    method ScriptReceiveMessage() returns (r: Option<Message>)
      requires Valid()
      modifies this
      ensures Valid() && events == old(events) + [ScriptReceives]
      ensures Taken(Run(ToWorker(old(events))), SentToWorker(old(events)), r)
      ensures stopped == old(stopped) && receiveMessageQueue == old(receiveMessageQueue)
    {
      hide Run, ToWorker, FromWorker, Stopped, Taken;
      EventsOneMore(events, ScriptReceives);
      FrontIsTaken(ToWorker(events));
      ChannelsCarryMessages(events);
      events := events + [ScriptReceives];
      if sendMessageQueue == [] { return None; }
      var message := sendMessageQueue[0];
      sendMessageQueue := sendMessageQueue[1..];
      r := Some(message);
    }
  }

  /** What a receive returns when the channel is `c` and `sent` was sent: the first message neither received nor
      dropped, or nothing when there is none. */
  ghost predicate Taken(c: Channel, sent: seq<Message>, r: Option<Message>) {
    var settled := |c.received| + |c.dropped|;
    if settled == |sent| then r == None
    else settled < |sent| && r == Some(sent[settled]) && settled !in c.received && settled !in c.dropped
  }

  lemma FrontIsTaken(ops: seq<Op>)
    ensures var c := Run(ops);
      Taken(c, c.sent, if c.queue == [] then None else Some(c.queue[0]))
  {
    RunIsLossyFifo(ops);
  }

  /** The channel after an event that does `ops` (at most one operation) on it. */
  function After(c: Channel, ops: seq<Op>): Channel
    requires |c.queue| <= |c.sent|
  {
    if ops == [] then c else Do(c, ops[0])
  }

  lemma RunOneMore(ops: seq<Op>, more: seq<Op>)
    requires |more| <= 1
    ensures Run(ops + more) == After(Run(ops), more)
  {
    if more == [] {
      assert ops + more == ops;
    } else {
      var longer := ops + more;
      assert longer[..|longer| - 1] == ops;
    }
  }

  lemma EventsOneMore(events: seq<Event>, event: Event)
    ensures Stopped(events + [event]) == (Stopped(events) || event.Stop?)
    ensures Run(ToWorker(events + [event])) == After(Run(ToWorker(events)), OnToWorker(Stopped(events), event))
    ensures Run(FromWorker(events + [event])) == After(Run(FromWorker(events)), OnFromWorker(event))
  {
    hide Run;
    var longer := events + [event];
    assert longer[..|longer| - 1] == events;
    RunOneMore(ToWorker(events), OnToWorker(Stopped(events), event));
    RunOneMore(FromWorker(events), OnFromWorker(event));
  }

  /** After a stop the main thread's messages no longer reach the worker's queue. */
  lemma {:induction false} NothingSentAfterStop(events: seq<Event>, later: seq<Event>)
    requires Stopped(events)
    ensures Stopped(events + later)
    ensures Run(ToWorker(events + later)).sent == Run(ToWorker(events)).sent
    decreases |later|
  {
    hide Run, ToWorker, FromWorker, Stopped;
    if later == [] {
      assert events + later == events;
    } else {
      var before, last := later[..|later| - 1], later[|later| - 1];
      NothingSentAfterStop(events, before);
      assert events + later == (events + before) + [last];
      EventsOneMore(events + before, last);
    }
  }
}
