/** Link status on its way from the driver callback to the WAN Manager: written
    into the port table under the mutex, sent to a bounded message queue after
    the mutex is released, and delivered by the event thread. */
module LinkEvents {
  import opened Basics

  datatype Message = Message(port: string, status: Status)

  const MAX_QUEUE_LENGTH: nat := 100

  /** The callback threads are numbered; pending holds what a thread has written
      into the table but not yet sent. delivered is what the WAN Manager has. */
  datatype State = State(
    table: map<string, Status>,
    pending: map<nat, Message>,
    queue: seq<Message>,
    delivered: map<string, Status>)

  datatype Step =
    | Write(producer: nat, port: string, status: Status)  // callback, inside the mutex
    | Send(producer: nat)                                 // callback, after the mutex
    | Lose(producer: nat)                                 // the queue cannot be opened or written
    | Deliver                                             // event thread
    | Drop                                                // event thread, the WAN Manager not reached

  /** A step is possible: an unknown port is not written, a full queue blocks. */
  predicate Enabled(s: State, step: Step) {
    match step
    case Write(p, port, _) => p !in s.pending && port in s.table
    case Send(p) => p in s.pending && |s.queue| < MAX_QUEUE_LENGTH
    case Lose(p) => p in s.pending
    case Deliver | Drop => s.queue != []
  }

  function Next(s: State, step: Step): State
    requires Enabled(s, step)
  {
    match step
    case Write(p, port, status) =>
      s.(table := s.table[port := status], pending := s.pending[p := Message(port, status)])
    case Send(p) => s.(pending := s.pending - {p}, queue := s.queue + [s.pending[p]])
    case Lose(p) => s.(pending := s.pending - {p})
    case Deliver =>
      s.(queue := s.queue[1..], delivered := s.delivered[s.queue[0].port := s.queue[0].status])
    case Drop => s.(queue := s.queue[1..])
  }

  ghost predicate Possible(s: State, steps: seq<Step>)
    decreases steps
  {
    steps != [] ==> Enabled(s, steps[0]) && Possible(Next(s, steps[0]), steps[1..])
  }

  function Run(s: State, steps: seq<Step>): State
    requires Possible(s, steps)
    decreases steps
  {
    if steps == [] then s else Run(Next(s, steps[0]), steps[1..])
  }

  // ----- what was reported

  /** The status the driver reported last for the port, or the one before. */
  function LastWritten(steps: seq<Step>, port: string, before: Status): Status
    decreases steps
  {
    if steps == [] then before
    else
      var first := steps[0];
      LastWritten(steps[1..], port, if first.Write? && first.port == port then first.status else before)
  }

  /** Over every run, whatever is lost and however many threads there are, the table has
      the status that the driver reported last. */
  lemma {:induction false} TableIsReported(s: State, steps: seq<Step>, port: string)
    requires Possible(s, steps) && port in s.table
    ensures port in Run(s, steps).table
    ensures Run(s, steps).table[port] == LastWritten(steps, port, s.table[port])
    decreases steps
  {
    if steps != [] { TableIsReported(Next(s, steps[0]), steps[1..], port); }
  }

  /** The messages of the callback steps, in order. */
  function Written(steps: seq<Step>): seq<Message>
    decreases steps
  {
    if steps == [] then []
    else (if steps[0].Write? then [Message(steps[0].port, steps[0].status)] else []) + Written(steps[1..])
  }

  /** The messages that the event thread takes from the queue, in order. */
  function Taken(s: State, steps: seq<Step>): seq<Message>
    requires Possible(s, steps)
    decreases steps
  {
    if steps == [] then []
    else
      (if steps[0].Deliver? || steps[0].Drop? then [s.queue[0]] else []) + Taken(Next(s, steps[0]), steps[1..])
  }

  /** On the way: queued, then unsent. */
  function OnTheWay(s: State): seq<Message> {
    s.queue + if 0 in s.pending then [s.pending[0]] else []
  }

  /** With one callback thread whose sends succeed, every report is taken once and in
      order: what was on the way and what is written is what is taken and what is left. */
  lemma {:induction false} NothingReordered(s: State, steps: seq<Step>)
    requires Possible(s, steps) && s.pending.Keys <= {0}
    requires forall step :: step in steps ==> ByOneProducer(step) && !step.Lose?
    ensures OnTheWay(s) + Written(steps) == Taken(s, steps) + OnTheWay(Run(s, steps))
    decreases steps
  {
    if steps != [] {
      var t := Next(s, steps[0]);
      assert steps[0] in steps;
      StepKeepsOrder(s, steps[0]);
      NothingReordered(t, steps[1..]);
      var w := if steps[0].Write? then [Message(steps[0].port, steps[0].status)] else [];
      var k := if steps[0].Deliver? || steps[0].Drop? then [s.queue[0]] else [];
      Regroup(OnTheWay(s), w, Written(steps[1..]), k, OnTheWay(t), Taken(t, steps[1..]), OnTheWay(Run(t, steps[1..])));
    }
  }

  lemma Regroup<T>(a: seq<T>, w: seq<T>, rest: seq<T>, k: seq<T>, t: seq<T>, taken: seq<T>, left: seq<T>)
    requires a + w == k + t && t + rest == taken + left
    ensures a + (w + rest) == (k + taken) + left
  {
    assert a + (w + rest) == (a + w) + rest;
    assert (k + t) + rest == k + (t + rest);
  }

  lemma StepKeepsOrder(s: State, step: Step)
    requires Enabled(s, step) && s.pending.Keys <= {0} && ByOneProducer(step) && !step.Lose?
    ensures Next(s, step).pending.Keys <= {0}
    ensures OnTheWay(s) + (if step.Write? then [Message(step.port, step.status)] else [])
         == (if step.Deliver? || step.Drop? then [s.queue[0]] else []) + OnTheWay(Next(s, step))
  {
    if step.Deliver? || step.Drop? { assert s.queue == [s.queue[0]] + s.queue[1..]; }
  }

  /** The queue never grows beyond its length. */
  lemma {:induction false} QueueBounded(s: State, steps: seq<Step>)
    requires Possible(s, steps) && |s.queue| <= MAX_QUEUE_LENGTH
    ensures |Run(s, steps).queue| <= MAX_QUEUE_LENGTH
    decreases steps
  {
    if steps != [] { QueueBounded(Next(s, steps[0]), steps[1..]); }
  }

  // ----- agreement

  /** What the WAN Manager was last told about the port. */
  function Told(s: State, port: string): Option<Status> {
    if port in s.delivered then Some(s.delivered[port]) else None
  }

  /** What it will have been told once the messages in the queue are delivered. */
  function AfterQueue(queue: seq<Message>, port: string, now: Option<Status>): Option<Status> {
    if queue == [] then now
    else
      var m := queue[|queue| - 1];
      if m.port == port then Some(m.status) else AfterQueue(queue[..|queue| - 1], port, now)
  }

  /** And then the unsent one. */
  function Outlook(s: State, port: string): Option<Status> {
    if 0 in s.pending && s.pending[0].port == port then Some(s.pending[0].status)
    else AfterQueue(s.queue, port, Told(s, port))
  }

  /** Every port of the table is, or will be, known to the WAN Manager with the
      status the table has. */
  ghost predicate Agreeing(s: State) {
    && s.pending.Keys <= {0}
    && (forall port :: port in s.table ==> Outlook(s, port) == Some(s.table[port]))
    && (forall m :: m in s.queue ==> m.port in s.table)
    && (0 in s.pending ==> s.pending[0].port in s.table)
  }

  lemma AfterQueueSnoc(queue: seq<Message>, m: Message, port: string, now: Option<Status>)
    ensures AfterQueue(queue + [m], port, now)
         == if m.port == port then Some(m.status) else AfterQueue(queue, port, now)
  {
    assert (queue + [m])[..|queue|] == queue;
  }

  lemma {:induction false} AfterQueueHead(queue: seq<Message>, port: string, now: Option<Status>)
    requires queue != []
    ensures AfterQueue(queue, port, now)
         == AfterQueue(queue[1..], port, if queue[0].port == port then Some(queue[0].status) else now)
  {
    var n := |queue| - 1;
    if n > 0 {
      assert queue[1..][|queue[1..]| - 1] == queue[n] && queue[1..][..n - 1] == queue[..n][1..];
      AfterQueueHead(queue[..n], port, now);
    } else {
      assert queue[..0] == [] && queue[1..] == [];
    }
  }

  predicate Mentions(queue: seq<Message>, port: string) {
    exists m :: m in queue && m.port == port
  }

  /** Without a message for the port what was told stays, with one it does not matter. */
  lemma {:induction false} AfterQueueMentions(queue: seq<Message>, port: string, now: Option<Status>, other: Option<Status>)
    ensures Mentions(queue, port) ==> AfterQueue(queue, port, now) == AfterQueue(queue, port, other)
    ensures !Mentions(queue, port) ==> AfterQueue(queue, port, now) == now
  {
    if queue != [] {
      var n := |queue| - 1;
      AfterQueueMentions(queue[..n], port, now, other);
      assert queue == queue[..n] + [queue[n]];
      assert queue[n] in queue;
    }
  }

  predicate ByOneProducer(step: Step) {
    match step
    case Write(p, _, _) => p == 0
    case Send(p) => p == 0
    case Lose(p) => p == 0
    case Deliver | Drop => true
  }

  /** The loss is not made up for: of an unsent message whose status was not on its way
      already, or of a queued one that no later message replaces and that the WAN
      Manager has not been told before. */
  predicate LossMatters(s: State, step: Step)
    requires Enabled(s, step)
  {
    match step
    case Lose(p) =>
      var m := s.pending[p];
      AfterQueue(s.queue, m.port, Told(s, m.port)) != Some(m.status)
    case Drop =>
      var m := s.queue[0];
      && !(0 in s.pending && s.pending[0].port == m.port)
      && !Mentions(s.queue[1..], m.port) && Told(s, m.port) != Some(m.status)
    case _ => false
  }

  lemma NextOutlook(s: State, step: Step, port: string)
    requires Agreeing(s) && Enabled(s, step) && ByOneProducer(step) && port in s.table
    ensures var t := Next(s, step);
      Outlook(t, port) == Some(t.table[port])
      <==> !(LossMatters(s, step) && port == (if step.Lose? then s.pending[0].port else s.queue[0].port))
  {
    match step {
      case Write(_, _, _) =>
      case Send(p) => AfterQueueSnoc(s.queue, s.pending[p], port, Told(s, port));
      case Lose(_) =>
      case Deliver => AfterQueueHead(s.queue, port, Told(s, port));
      case Drop =>
        var m := s.queue[0];
        var now := if m.port == port then Some(m.status) else Told(s, port);
        AfterQueueHead(s.queue, port, Told(s, port));
        AfterQueueMentions(s.queue[1..], port, now, Told(s, port));
        AfterQueueMentions(s.queue[1..], port, Told(s, port), now);
    }
  }

  /** A step of the one callback thread or of the event thread keeps the sides agreeing
      if and only if it loses nothing that matters. */
  lemma StepAgreesIff(s: State, step: Step)
    requires Agreeing(s) && Enabled(s, step) && ByOneProducer(step)
    ensures Agreeing(Next(s, step)) <==> !LossMatters(s, step)
  {
    var t := Next(s, step);
    forall port | port in s.table
      ensures Outlook(t, port) == Some(t.table[port])
          <==> !(LossMatters(s, step) && port == (if step.Lose? then s.pending[0].port else s.queue[0].port))
    {
      NextOutlook(s, step, port);
    }
  }

  ghost predicate AgreeThroughout(s: State, steps: seq<Step>)
    requires Possible(s, steps)
    decreases steps
  {
    Agreeing(s) && (steps != [] ==> AgreeThroughout(Next(s, steps[0]), steps[1..]))
  }

  ghost predicate NothingLost(s: State, steps: seq<Step>)
    requires Possible(s, steps)
    decreases steps
  {
    steps != [] ==> !LossMatters(s, steps[0]) && NothingLost(Next(s, steps[0]), steps[1..])
  }

  /** Over every run with one callback thread, in any interleaving: the table has the
      unsent status, else the last queued one, else the one last delivered, throughout,
      if and only if no failed send or delivery loses anything that matters. */
  lemma {:induction false} RunAgreesIff(s: State, steps: seq<Step>)
    requires Agreeing(s) && Possible(s, steps)
    requires forall step :: step in steps ==> ByOneProducer(step)
    ensures AgreeThroughout(s, steps) <==> NothingLost(s, steps)
    decreases steps
  {
    if steps != [] {
      assert steps[0] in steps;
      StepAgreesIff(s, steps[0]);
      if !LossMatters(s, steps[0]) { RunAgreesIff(Next(s, steps[0]), steps[1..]); }
    }
  }

  lemma {:induction false} RunEnds(s: State, steps: seq<Step>)
    requires Possible(s, steps) && AgreeThroughout(s, steps)
    ensures Agreeing(Run(s, steps)) && Run(s, steps).table.Keys == s.table.Keys
    decreases steps
  {
    if steps != [] { RunEnds(Next(s, steps[0]), steps[1..]); }
  }

  ghost predicate AgreesOn(s: State, port: string) {
    port in s.table && Told(s, port) == Some(s.table[port])
  }

  /** Once everything is sent and the queue has drained, both sides have the status that
      the driver reported last. */
  lemma DrainedAgrees(s: State, steps: seq<Step>)
    requires Agreeing(s) && Possible(s, steps) && NothingLost(s, steps)
    requires forall step :: step in steps ==> ByOneProducer(step)
    requires Run(s, steps).queue == [] && Run(s, steps).pending == map[]
    ensures Run(s, steps).table.Keys == s.table.Keys
    ensures forall port :: port in s.table ==>
      AgreesOn(Run(s, steps), port)
      && Told(Run(s, steps), port) == Some(LastWritten(steps, port, s.table[port]))
  {
    RunAgreesIff(s, steps);
    RunEnds(s, steps);
    forall port | port in s.table
      ensures Run(s, steps).table[port] == LastWritten(steps, port, s.table[port])
    {
      TableIsReported(s, steps, port);
    }
  }

  lemma Prepend(s: State, step: Step, rest: seq<Step>)
    requires Enabled(s, step) && Possible(Next(s, step), rest)
    ensures Possible(s, [step] + rest) && Run(s, [step] + rest) == Run(Next(s, step), rest)
  {
    assert ([step] + rest)[1..] == rest;
  }

  /** From any state of such a run, |queue| + 2 steps suffice to drain. */
  function Drain(s: State): seq<Step>
  {
    seq(|s.queue|, _ => Deliver) + if 0 in s.pending then [Send(0), Deliver] else []
  }

  lemma {:induction false} DrainPossible(s: State)
    requires s.pending.Keys <= {0}
    ensures Possible(s, Drain(s)) && Run(s, Drain(s)).queue == [] && Run(s, Drain(s)).pending == map[]
    decreases |s.queue|
  {
    if s.queue != [] {
      var t := Next(s, Deliver);
      assert Drain(s) == [Deliver] + Drain(t);
      assert Drain(s)[1..] == Drain(t);
      DrainPossible(t);
    } else if 0 in s.pending {
      var t := Next(s, Send(0));
      var u := Next(t, Deliver);
      assert u.pending.Keys == {} && u.queue == [];
      Prepend(t, Deliver, []);
      Prepend(s, Send(0), [Deliver]);
      assert Drain(s) == [Send(0)] + [Deliver];
    } else {
      assert s.pending.Keys == {};
      assert s.pending == map[] && Drain(s) == [];
    }
  }

  // ----- several callback threads

  /** Everything pending is sent and everything queued is delivered, nothing else. */
  ghost predicate Drains(s: State, steps: seq<Step>) {
    && Possible(s, steps)
    && (forall step :: step in steps ==> step.Send? || step.Deliver?)
    && Run(s, steps).queue == [] && Run(s, steps).pending == map[]
  }

  predicate AnyPending(s: State, port: string) {
    exists p :: p in s.pending && s.pending[p].port == port
  }

  /** Whichever message for the port is delivered last carries the status. */
  ghost predicate BoundFor(s: State, port: string, status: Option<Status>) {
    && (forall p :: p in s.pending && s.pending[p].port == port ==> Some(s.pending[p].status) == status)
    && (AnyPending(s, port) || AfterQueue(s.queue, port, Told(s, port)) == status)
  }

  lemma BoundStep(s: State, step: Step, port: string, status: Option<Status>)
    requires BoundFor(s, port, status)
    requires Enabled(s, step) && (step.Send? || step.Deliver?)
    ensures BoundFor(Next(s, step), port, status)
    ensures Next(s, step).table == s.table
  {
    var t := Next(s, step);
    match step {
      case Send(p) =>
        AfterQueueSnoc(s.queue, s.pending[p], port, Told(s, port));
        if s.pending[p].port != port && AnyPending(s, port) {
          var q :| q in s.pending && s.pending[q].port == port;
          assert q in t.pending;
        }
      case Deliver =>
        AfterQueueHead(s.queue, port, Told(s, port));
    }
  }

  lemma {:induction false} BoundArrives(s: State, steps: seq<Step>, port: string, status: Option<Status>)
    requires BoundFor(s, port, status) && Drains(s, steps)
    ensures Told(Run(s, steps), port) == status
    ensures Run(s, steps).table == s.table
    decreases steps
  {
    if steps != [] {
      assert steps[0] in steps;
      BoundStep(s, steps[0], port, status);
      BoundArrives(Next(s, steps[0]), steps[1..], port, status);
    }
  }

  lemma PrependDrain(s: State, step: Step, rest: seq<Step>)
    requires Enabled(s, step) && (step.Send? || step.Deliver?) && Drains(Next(s, step), rest)
    ensures Drains(s, [step] + rest) && Run(s, [step] + rest) == Run(Next(s, step), rest)
  {
    Prepend(s, step, rest);
  }

  lemma SendShrinks(s: State, p: nat)
    requires Enabled(s, Send(p))
    ensures |Next(s, Send(p)).pending| < |s.pending|
  {
    assert s.pending.Keys == Next(s, Send(p)).pending.Keys + {p};
  }

  /** The only message left is sent and delivered. */
  lemma DrainOne(s: State, last: nat)
    requires last in s.pending && s.queue == [] && forall p :: p in s.pending ==> p == last
    ensures var m, steps := s.pending[last], [Send(last)] + [Deliver];
      Drains(s, steps) && Run(s, steps).delivered == s.delivered[m.port := m.status]
  {
    var t := Next(s, Send(last));
    var u := Next(t, Deliver);
    assert u.pending == map[] && u.queue == [];
    assert Drains(u, []);
    PrependDrain(t, Deliver, []);
    assert [Deliver] + [] == [Deliver];
    PrependDrain(s, Send(last), [Deliver]);
  }

  /** A drain that sends the given thread's message after all others. */
  lemma {:induction false} DrainWithLast(s: State, last: nat) returns (steps: seq<Step>)
    requires last in s.pending
    ensures Drains(s, steps)
    ensures Told(Run(s, steps), s.pending[last].port) == Some(s.pending[last].status)
    decreases |s.pending|, |s.queue|
  {
    if s.queue != [] {
      var rest := DrainWithLast(Next(s, Deliver), last);
      PrependDrain(s, Deliver, rest);
      steps := [Deliver] + rest;
    } else if p :| p in s.pending && p != last {
      SendShrinks(s, p);
      var rest := DrainWithLast(Next(s, Send(p)), last);
      PrependDrain(s, Send(p), rest);
      steps := [Send(p)] + rest;
    } else {
      DrainOne(s, last);
      steps := [Send(last)] + [Deliver];
    }
  }

  lemma {:induction false} DrainExists(s: State) returns (steps: seq<Step>)
    ensures Drains(s, steps)
    decreases |s.queue|
  {
    if s.queue != [] {
      var rest := DrainExists(Next(s, Deliver));
      PrependDrain(s, Deliver, rest);
      steps := [Deliver] + rest;
    } else if p :| p in s.pending {
      steps := DrainWithLast(s, p);
    } else {
      assert s.pending == map[];
      steps := [];
    }
  }

  /** However many threads have unsent messages: every way to send and deliver them all
      ends with both sides agreeing on a port if and only if every unsent message for
      it carries the table's status and, if there is none, the last queued or
      delivered status is the table's. */
  lemma EveryDrainAgreesIff(s: State, port: string)
    requires port in s.table
    ensures (forall steps :: Drains(s, steps) ==> AgreesOn(Run(s, steps), port))
        <==> BoundFor(s, port, Some(s.table[port]))
  {
    var status := Some(s.table[port]);
    if BoundFor(s, port, status) {
      forall steps | Drains(s, steps)
        ensures AgreesOn(Run(s, steps), port)
      {
        BoundArrives(s, steps, port, status);
      }
    } else if p :| p in s.pending && s.pending[p].port == port && Some(s.pending[p].status) != status {
      var steps := DrainWithLast(s, p);
      DrainKeepsTable(s, steps);
    } else {
      var now := AfterQueue(s.queue, port, Told(s, port));
      var steps := DrainExists(s);
      BoundArrives(s, steps, port, now);
    }
  }

  lemma {:induction false} DrainKeepsTable(s: State, steps: seq<Step>)
    requires Drains(s, steps)
    ensures Run(s, steps).table == s.table
    decreases steps
  {
    if steps != [] {
      assert steps[0] in steps;
      DrainKeepsTable(Next(s, steps[0]), steps[1..]);
    }
  }

  const ETH := "eth0"

  function Settled(table: Status, pending: map<nat, Message>, queue: seq<Message>, delivered: Status): State {
    State(map[ETH := table], pending, queue, map[ETH := delivered])
  }

  /** Two callback threads: Up is written first, Down is sent first. */
  function Race(): seq<Step> {
    [Write(0, ETH, Up)] + ([Write(1, ETH, Down)] + ([Send(1)] + ([Send(0)] + ([Deliver] + ([Deliver] + [])))))
  }

  /** With two callback threads the order of the table writes and the order of
      the sends can differ, and then the sides disagree for good. */
  lemma TwoProducersDisagree()
    ensures var s := Settled(Down, map[], [], Down);
      Agreeing(s) && Possible(s, Race()) && Run(s, Race()) == Settled(Down, map[], [], Up)
  {
    var s := Settled(Down, map[], [], Down);
    var up, down := Message(ETH, Up), Message(ETH, Down);
    var s1 := Settled(Up, map[0 := up], [], Down);
    var s2 := Settled(Down, map[0 := up, 1 := down], [], Down);
    var s3 := Settled(Down, map[0 := up], [down], Down);
    var s4 := Settled(Down, map[], [down, up], Down);
    var s5 := Settled(Down, map[], [up], Down);
    var s6 := Settled(Down, map[], [], Up);
    assert Next(s5, Deliver) == s6 && Next(s4, Deliver) == s5 && Next(s3, Send(0)) == s4;
    assert Next(s2, Send(1)) == s3 && Next(s1, Write(1, ETH, Down)) == s2 && Next(s, Write(0, ETH, Up)) == s1;
    Prepend(s5, Deliver, []);
    Prepend(s4, Deliver, [Deliver] + []);
    Prepend(s3, Send(0), [Deliver] + ([Deliver] + []));
    Prepend(s2, Send(1), [Send(0)] + ([Deliver] + ([Deliver] + [])));
    Prepend(s1, Write(1, ETH, Down), [Send(1)] + ([Send(0)] + ([Deliver] + ([Deliver] + []))));
    Prepend(s, Write(0, ETH, Up),
            [Write(1, ETH, Down)] + ([Send(1)] + ([Send(0)] + ([Deliver] + ([Deliver] + [])))));
  }
}
