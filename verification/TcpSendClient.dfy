/** The sending TCP client: an application thread and a sender thread around a bounded queue. */
module TcpSendClient {
  import opened Bytes
  import opened ThreadsafeQueues

  type Buffer = seq<Byte>

  const MAX_QUEUE_SIZE: nat := 512

  /** Where the application thread is: outside, inside sendall, or inside the destructor. */
  datatype App = Ready | Pushing | Sizing | Discarding | Closing | Joining

  /** Where the sender thread is in its loop. */
  datatype Sender = Top | Popping | Sending(buffer: Buffer) | Connecting | Stopped

  datatype Holding = Nobody | Number(i: nat)

  /**
    The client, and a log: the buffers handed to sendall, how many left the queue, those that the
    socket took with their numbers, and how many were discarded or lost in failed transmissions.
    `holding` is the number of the buffer that the sender has popped and not yet dealt with.
   */
  datatype Client = Client(
    m: State<Buffer>, app: App, sender: Sender, running: bool, connected: bool,
    submitted: seq<Buffer>, removed: nat, wire: seq<Buffer>, numbers: seq<nat>, discarded: nat, lost: nat,
    holding: Holding)

  datatype Action =
    | Monitor(l: Label<Buffer>)
    | SendAll(buffer: Buffer) | CheckSize | Sized | Discarded | Destroy | Destroyed
    | Loop | Popped | Sent | SendFailed | SendThrows | Connected | ConnectFailed

  predicate Initial(c: Client) {
    && ThreadsafeQueues.Initial(c.m)
    && c == Client(c.m, Ready, Top, true, false, [], 0, [], [], 0, 0, Nobody)
  }

  predicate Enabled(c: Client, a: Action) {
    match a
    case Monitor(l) => !l.Call? && ThreadsafeQueues.Enabled(c.m, l)
    case SendAll(b) => c.app == Ready && c.m.producer.Idle? && c.running
    case CheckSize => c.app == Pushing && c.m.producer.Idle?
    case Sized => c.app == Sizing && c.m.producer.Idle? && c.m.producer.result.Count?
    case Discarded => c.app == Discarding && c.m.producer.Idle?
    case Destroy => c.app == Ready && c.m.producer.Idle?
    case Destroyed => c.app == Closing && c.m.producer.Idle?
    case Loop => c.sender == Top && c.m.consumer.Idle?
    case Popped =>
      c.sender == Popping && c.m.consumer.Idle? && (c.m.consumer.result.Value? || c.m.consumer.result.Awakened?)
    case Sent => c.sender.Sending?
    case SendFailed => c.sender.Sending?
    case SendThrows => c.sender.Sending?
    case Connected => c.sender == Connecting
    case ConnectFailed => c.sender == Connecting
  }

  function Calling(m: State<Buffer>, t: Thread, op: Op<Buffer>): State<Buffer>
    requires At(m, t).Idle? && Allowed(t, op)
  {
    Apply(m, Call(t, op))
  }

  /** A step inside the monitor; a pop is noted in the log. */
  function MonitorStep(c: Client, l: Label<Buffer>): Client
    requires ThreadsafeQueues.Enabled(c.m, l) && !l.Call?
  {
    var after := Apply(c.m, l);
    var pc := At(after, l.t);
    if l.Body? && pc.Leaving? && pc.result.Value? then
      if l.t == Producer then c.(m := after, removed := c.removed + 1, discarded := c.discarded + 1)
      else c.(m := after, removed := c.removed + 1, holding := Number(c.removed))
    else c.(m := after)
  }

  function Do(c: Client, a: Action): Client
    requires Enabled(c, a)
  {
    match a
    case Monitor(l) => MonitorStep(c, l)
    case SendAll(b) => c.(m := Calling(c.m, Producer, Push(b, 0)), app := Pushing, submitted := c.submitted + [b])
    case CheckSize => c.(m := Calling(c.m, Producer, Size), app := Sizing)
    case Sized =>
      if c.m.producer.result.n > MAX_QUEUE_SIZE then c.(m := Calling(c.m, Producer, TryPop), app := Discarding)
      else c.(app := Ready)
    case Discarded => c.(app := Ready)
    case Destroy => c.(m := Calling(c.m, Producer, TriggerWakeup), app := Closing, running := false)
    case Destroyed => c.(app := Joining)
    case Loop =>
      if !c.running then c.(sender := Stopped)
      else if c.connected then c.(m := Calling(c.m, Consumer, WaitAndPop(1)), sender := Popping)
      else c.(sender := Connecting)
    case Popped =>
      if c.m.consumer.result.Value? then c.(sender := Sending(c.m.consumer.result.v)) else c.(sender := Stopped)
    case Sent =>
      c.(sender := Top, wire := c.wire + [c.sender.buffer], holding := Nobody,
         numbers := c.numbers + if c.holding.Number? then [c.holding.i] else [])
    case SendFailed => c.(sender := Top, connected := false, lost := c.lost + 1, holding := Nobody)
    case SendThrows => c.(sender := Stopped, running := false, lost := c.lost + 1, holding := Nobody)
    case Connected => c.(sender := Top, connected := true)
    case ConnectFailed => c.(sender := Top, connected := false)
  }

  //////////////////////////////////////////////////////////////////////////////
  //
  // What every step keeps
  //
  //////////////////////////////////////////////////////////////////////////////

  /** The buffer that sendall has yet to put into the queue. */
  function InFlight(m: State<Buffer>): seq<Buffer> {
    if (m.producer.Entering? || m.producer.Inside?) && m.producer.op.Push? then [m.producer.op.v] else []
  }

  /** Which operation the application thread is in, and how long the queue may be meanwhile. */
  predicate AppInv(c: Client) {
    var pc, size := c.m.producer, |c.m.queue|;
    && !pc.Asleep? && !pc.Woken?
    && (pc.Leaving? && !pc.notify ==> pc.op.Size? || pc.op.TryPop?)
    && match c.app
       case Ready => pc.Idle? && size <= MAX_QUEUE_SIZE
       case Pushing =>
         (pc.Idle? || (pc.op.Push? && pc.op.max == 0))
         && size <= if pc.Entering? || pc.Inside? then MAX_QUEUE_SIZE else MAX_QUEUE_SIZE + 1
       case Sizing =>
         (pc.Idle? || pc.op.Size?) && size <= MAX_QUEUE_SIZE + 1
         && (pc.Idle? || pc.Leaving? || pc.Notifying? ==> pc.result.Count? && size <= pc.result.n)
       case Discarding =>
         (pc.Idle? || pc.op.TryPop?)
         && size <= if pc.Entering? || pc.Inside? then MAX_QUEUE_SIZE + 1 else MAX_QUEUE_SIZE
       case Closing =>
         (pc.Idle? || pc.op.TriggerWakeup?) && size <= MAX_QUEUE_SIZE
       case Joining => pc.Idle? && size <= MAX_QUEUE_SIZE
  }

  predicate HasResult(pc: Pc<Buffer>) {
    pc.Idle? || pc.Leaving? || pc.Notifying?
  }

  /** Which operation the sender thread is in, and what it holds. */
  predicate SenderInv(c: Client) {
    var pc := c.m.consumer;
    && (if c.sender == Popping then pc.Idle? || pc.op == WaitAndPop(1) else pc.Idle?)
    && (c.sender == Popping && HasResult(pc) ==>
          && (pc.result.Value? || pc.result.Awakened?)
          && (pc.result.Value? <==> c.holding.Number?))
    && (c.sender == Popping && !HasResult(pc) ==> c.holding == Nobody)
    && (c.sender != Popping && !c.sender.Sending? ==> c.holding == Nobody)
    && (c.sender.Sending? ==> c.holding.Number?)
  }

  function Held(c: Client): nat {
    if c.holding.Number? then 1 else 0
  }

  /** The queue is what has been submitted and not removed. */
  predicate QueueLog(c: Client) {
    c.removed <= |c.submitted| && c.m.queue + InFlight(c.m) == c.submitted[c.removed..]
  }

  /** The wire carries submitted buffers, in their order and none twice. */
  predicate WireLog(c: Client) {
    && c.removed <= |c.submitted| && |c.wire| == |c.numbers|
    && (forall i :: 0 <= i < |c.numbers| ==> c.numbers[i] < c.removed && c.wire[i] == c.submitted[c.numbers[i]])
    && (forall i, j :: 0 <= i < j < |c.numbers| ==> c.numbers[i] < c.numbers[j])
    && (c.holding.Number? ==>
          c.holding.i < c.removed && forall i :: 0 <= i < |c.numbers| ==> c.numbers[i] < c.holding.i)
  }

  /** What the sender holds is the buffer with that number. */
  predicate HoldLog(c: Client) {
    c.holding.Number? ==>
      && c.holding.i < |c.submitted|
      && (c.sender == Popping && HasResult(c.m.consumer) && c.m.consumer.result.Value? ==>
            c.m.consumer.result.v == c.submitted[c.holding.i])
      && (c.sender.Sending? ==> c.sender.buffer == c.submitted[c.holding.i])
  }

  predicate CountLog(c: Client) {
    c.removed == |c.wire| + c.discarded + c.lost + Held(c)
  }

  /** Once the destructor has asked for the wakeup, the sender is stopped, told, or about to find out. */
  predicate CloseInv(c: Client) {
    && (c.app == Closing || c.app == Joining ==> !c.running)
    && (c.app == Joining || (c.app == Closing && HasResult(c.m.producer)) ==>
          c.m.wakeup || c.sender == Stopped
          || (c.sender == Popping && HasResult(c.m.consumer) && c.m.consumer.result.Awakened?))
  }

  predicate Inv(c: Client) {
    ThreadsafeQueues.Inv(c.m) && AppInv(c) && SenderInv(c) && CloseInv(c)
    && QueueLog(c) && WireLog(c) && HoldLog(c) && CountLog(c)
  }

  lemma InitialInv(c: Client)
    requires Initial(c)
    ensures Inv(c)
  {
    ThreadsafeQueues.InitialInv(c.m);
  }

  //////////////////////////////////////////////////////////////////////////////
  //
  // Steps of the two programs
  //
  //////////////////////////////////////////////////////////////////////////////

  lemma CallInv(m: State<Buffer>, t: Thread, op: Op<Buffer>)
    requires ThreadsafeQueues.Inv(m) && At(m, t).Idle? && Allowed(t, op)
    ensures ThreadsafeQueues.Inv(Calling(m, t, op))
  {
    StepInv(m, Call(t, op), Calling(m, t, op));
  }

  lemma ActionMonitor(c: Client, a: Action)
    requires ThreadsafeQueues.Inv(c.m) && Enabled(c, a) && !a.Monitor?
    ensures ThreadsafeQueues.Inv(Do(c, a).m)
  {
    hide ThreadsafeQueues.Inv, Apply;
    match a
    case SendAll(b) => CallInv(c.m, Producer, Push(b, 0));
    case CheckSize => CallInv(c.m, Producer, Size);
    case Sized => CallInv(c.m, Producer, TryPop);
    case Destroy => CallInv(c.m, Producer, TriggerWakeup);
    case Loop => CallInv(c.m, Consumer, WaitAndPop(1));
    case _ =>
  }

  lemma ActionApp(c: Client, a: Action)
    requires AppInv(c) && Enabled(c, a) && !a.Monitor?
    ensures AppInv(Do(c, a))
  {}

  lemma ActionSender(c: Client, a: Action)
    requires SenderInv(c) && Enabled(c, a) && !a.Monitor?
    ensures SenderInv(Do(c, a))
  {}

  lemma ActionClose(c: Client, a: Action)
    requires CloseInv(c) && AppInv(c) && SenderInv(c) && Enabled(c, a) && !a.Monitor?
    ensures CloseInv(Do(c, a))
  {}

  lemma ActionQueueLog(c: Client, a: Action)
    requires QueueLog(c) && Enabled(c, a) && !a.Monitor?
    ensures QueueLog(Do(c, a))
  {
    var d := Do(c, a);
    if a.SendAll? {
      assert d.submitted[d.removed..] == c.submitted[c.removed..] + [a.buffer];
      assert InFlight(c.m) == [] && InFlight(d.m) == [a.buffer];
    }
  }

  lemma ActionWireLog(c: Client, a: Action)
    requires WireLog(c) && HoldLog(c) && SenderInv(c) && Enabled(c, a) && !a.Monitor?
    ensures WireLog(Do(c, a))
  {
    if a.Sent? {
      WireGrows(c, c.holding.i);
    }
  }

  lemma WireGrows(c: Client, n: nat)
    requires WireLog(c) && HoldLog(c) && c.sender.Sending? && c.holding == Number(n)
    ensures WireLog(c.(sender := Top, wire := c.wire + [c.sender.buffer], numbers := c.numbers + [n],
                       holding := Nobody))
  {}

  lemma ActionHoldLog(c: Client, a: Action)
    requires HoldLog(c) && SenderInv(c) && Enabled(c, a) && !a.Monitor?
    ensures HoldLog(Do(c, a))
  {}

  lemma ActionCountLog(c: Client, a: Action)
    requires CountLog(c) && SenderInv(c) && Enabled(c, a) && !a.Monitor?
    ensures CountLog(Do(c, a))
  {}

  //////////////////////////////////////////////////////////////////////////////
  //
  // Steps inside the monitor
  //
  //////////////////////////////////////////////////////////////////////////////

  lemma MonitorApp(c: Client, l: Label<Buffer>)
    requires ThreadsafeQueues.Inv(c.m) && AppInv(c) && SenderInv(c) && Enabled(c, Monitor(l))
    ensures AppInv(MonitorStep(c, l))
  {
    if l.Body? {
      BodyApp(c, l.t);
    }
  }

  lemma BodyApp(c: Client, t: Thread)
    requires ThreadsafeQueues.Inv(c.m) && AppInv(c) && SenderInv(c) && Enabled(c, Monitor(Body(t)))
    ensures AppInv(MonitorStep(c, Body(t)))
  {}

  lemma MonitorSender(c: Client, l: Label<Buffer>)
    requires ThreadsafeQueues.Inv(c.m) && AppInv(c) && SenderInv(c) && Enabled(c, Monitor(l))
    ensures SenderInv(MonitorStep(c, l))
  {}

  lemma MonitorClose(c: Client, l: Label<Buffer>)
    requires ThreadsafeQueues.Inv(c.m) && AppInv(c) && SenderInv(c) && CloseInv(c) && Enabled(c, Monitor(l))
    ensures CloseInv(MonitorStep(c, l))
  {}

  lemma MonitorQueueLog(c: Client, l: Label<Buffer>)
    requires ThreadsafeQueues.Inv(c.m) && AppInv(c) && SenderInv(c) && QueueLog(c) && Enabled(c, Monitor(l))
    ensures QueueLog(MonitorStep(c, l))
  {
    if l.Body? {
      BodyQueueLog(c, l.t);
    }
  }

  lemma BodyQueueLog(c: Client, t: Thread)
    requires ThreadsafeQueues.Inv(c.m) && AppInv(c) && SenderInv(c) && QueueLog(c) && Enabled(c, Monitor(Body(t)))
    ensures QueueLog(MonitorStep(c, Body(t)))
  {
    hide Effect, MustWait, ThreadsafeQueues.Inv, WireLog;
    var pc := At(c.m, t);
    assert pc.op.Push? || pc.op.Size? || pc.op.TryPop? || pc.op.TriggerWakeup? || pc.op.WaitAndPop? by {
      assert t == Consumer ==> c.sender == Popping;
    }
    EffectOnQueue(pc.op, c.m.queue, c.m.wakeup);
    QueueShifts(c.submitted, c.removed, c.m.queue, InFlight(c.m));
  }

  /** The operations of this client append in flight buffers, drop the front, or leave the queue alone. */
  lemma EffectOnQueue(op: Op<Buffer>, queue: seq<Buffer>, wakeup: bool)
    requires Proper(op) && !MustWait(op, queue, wakeup)
    requires op.Push? || op.Size? || op.TryPop? || op.TriggerWakeup? || op.WaitAndPop?
    requires op.Push? ==> op.max == 0
    ensures var o := Effect(op, queue, wakeup);
            && (op.Push? ==> !o.result.Value? && o.queue == queue + [op.v])
            && (!op.Push? && !o.result.Value? ==> o.queue == queue)
            && (o.result.Value? ==> queue != [] && o.queue == queue[1..] && o.result.v == queue[0])
  {}

  lemma QueueShifts(submitted: seq<Buffer>, removed: nat, queue: seq<Buffer>, flight: seq<Buffer>)
    requires removed <= |submitted| && queue + flight == submitted[removed..]
    ensures queue != [] ==> removed < |submitted| && queue[1..] + flight == submitted[removed + 1..]
  {
    if queue != [] {
      assert (queue + flight)[1..] == queue[1..] + flight;
    }
  }

  lemma MonitorWireLog(c: Client, l: Label<Buffer>)
    requires Enabled(c, Monitor(l)) && AppInv(c) && SenderInv(c) && WireLog(c) && QueueLog(MonitorStep(c, l))
    ensures WireLog(MonitorStep(c, l))
  {}

  lemma MonitorHoldLog(c: Client, l: Label<Buffer>)
    requires Enabled(c, Monitor(l))
    requires AppInv(c) && SenderInv(c) && HoldLog(c) && QueueLog(c) && QueueLog(MonitorStep(c, l))
    ensures HoldLog(MonitorStep(c, l))
  {
    hide ThreadsafeQueues.Inv, InFlight, WireLog;
    if l.Body? && l.t == Consumer {
      BodyHoldLog(c);
    }
  }

  lemma BodyHoldLog(c: Client)
    requires Enabled(c, Monitor(Body(Consumer))) && SenderInv(c) && QueueLog(c)
    ensures HoldLog(MonitorStep(c, Body(Consumer)))
  {
    hide Effect, MustWait, InFlight;
    EffectOnQueue(c.m.consumer.op, c.m.queue, c.m.wakeup);
    if c.m.queue != [] {
      assert (c.m.queue + InFlight(c.m))[0] == c.m.queue[0];
    }
  }

  lemma MonitorCountLog(c: Client, l: Label<Buffer>)
    requires AppInv(c) && SenderInv(c) && CountLog(c) && Enabled(c, Monitor(l))
    ensures CountLog(MonitorStep(c, l))
  {}

  //////////////////////////////////////////////////////////////////////////////
  //
  // Whole runs
  //
  //////////////////////////////////////////////////////////////////////////////

  /** Every step of either thread keeps all of it. */
  lemma DoInv(c: Client, a: Action)
    requires Inv(c) && Enabled(c, a)
    ensures Inv(Do(c, a))
  {
    hide AppInv, SenderInv, CloseInv, QueueLog, WireLog, HoldLog, CountLog, ThreadsafeQueues.Inv, Apply;
    match a
    case Monitor(l) =>
      StepInv(c.m, l, Apply(c.m, l));
      MonitorApp(c, l);
      MonitorSender(c, l);
      MonitorClose(c, l);
      MonitorQueueLog(c, l);
      MonitorWireLog(c, l);
      MonitorHoldLog(c, l);
      MonitorCountLog(c, l);
    case _ =>
      hide Do, Enabled;
      ActionMonitor(c, a);
      ActionApp(c, a);
      ActionSender(c, a);
      ActionClose(c, a);
      ActionQueueLog(c, a);
      ActionWireLog(c, a);
      ActionHoldLog(c, a);
      ActionCountLog(c, a);
  }

  ghost predicate Run(cs: seq<Client>, actions: seq<Action>) {
    && |cs| == |actions| + 1 && Initial(cs[0])
    && forall n :: 0 <= n < |actions| ==> Enabled(cs[n], actions[n]) && cs[n + 1] == Do(cs[n], actions[n])
  }

  lemma {:induction false} RunInv(cs: seq<Client>, actions: seq<Action>, n: nat)
    requires Run(cs, actions) && n <= |actions|
    ensures Inv(cs[n])
  {
    hide Inv, Initial, Do, Enabled;
    if n == 0 {
      InitialInv(cs[0]);
    } else {
      RunInv(cs, actions, n - 1);
      DoInv(cs[n - 1], actions[n - 1]);
    }
  }

  /** Between calls of sendall the queue holds at most 512 buffers, during a call at most one more. */
  lemma QueueBounded(cs: seq<Client>, actions: seq<Action>, n: nat)
    requires Run(cs, actions) && n <= |actions|
    ensures |cs[n].m.queue| <= 513
    ensures cs[n].app == Ready ==> |cs[n].m.queue| <= 512
  {
    hide Run;
    RunInv(cs, actions, n);
  }

  /** s is obtained from t by leaving out elements. */
  ghost predicate Subsequence(s: seq<Buffer>, t: seq<Buffer>) {
    exists at: seq<nat> :: Selects(at, s, t)
  }

  ghost predicate Selects(at: seq<nat>, s: seq<Buffer>, t: seq<Buffer>) {
    && |at| == |s| && (forall i :: 0 <= i < |s| ==> at[i] < |t| && s[i] == t[at[i]])
    && forall i, j :: 0 <= i < j < |at| ==> at[i] < at[j]
  }

  /** The socket receives buffers in the order of submission, each at most once. */
  lemma SentInOrder(cs: seq<Client>, actions: seq<Action>, n: nat)
    requires Run(cs, actions) && n <= |actions|
    ensures Subsequence(cs[n].wire, cs[n].submitted)
  {
    RunInv(cs, actions, n);
    assert Selects(cs[n].numbers, cs[n].wire, cs[n].submitted);
  }

  /**
    No buffer vanishes: it is sent, discarded, lost with the connection, in the sender's hands, queued
    or in flight.
   */
  lemma BuffersConserved(cs: seq<Client>, actions: seq<Action>, n: nat)
    requires Run(cs, actions) && n <= |actions|
    ensures var c := cs[n];
            |c.submitted| == |c.wire| + c.discarded + c.lost + Held(c) + |c.m.queue| + |InFlight(c.m)|
  {
    RunInv(cs, actions, n);
    assert |cs[n].m.queue + InFlight(cs[n].m)| == |cs[n].submitted[cs[n].removed..]|;
  }

  /** While the destructor joins, the sender is not asleep. */
  lemma JoinWakesSender(cs: seq<Client>, actions: seq<Action>, n: nat)
    requires Run(cs, actions) && n <= |actions| && cs[n].app == Joining
    ensures !cs[n].running && !cs[n].m.consumer.Asleep?
  {
    hide Run;
    RunInv(cs, actions, n);
  }

  /** How many steps the sender takes at most until it has stopped, once the destructor joins. */
  function Remaining(c: Client): (n: nat)
    ensures n <= 7
  {
    match c.sender
    case Stopped => 0
    case Top => 1
    case Connecting => 2
    case Sending(_) => 2
    case Popping =>
      match c.m.consumer
      case Idle(_) => 3
      case Notifying(_, _) => 4
      case Leaving(_, _, _) => 5
      case Inside(_) => 6
      case _ => 7
  }

  /** Every step that can still happen brings the sender nearer to its end, and the application goes on joining. */
  lemma JoinStep(c: Client, a: Action)
    requires Inv(c) && c.app == Joining && Enabled(c, a)
    ensures Do(c, a).app == Joining && Remaining(Do(c, a)) < Remaining(c)
  {
    hide QueueLog, WireLog, HoldLog, CountLog;
  }

  /** Unless it has stopped, it can take one. */
  lemma JoinProgress(c: Client) returns (a: Action)
    requires Inv(c) && c.app == Joining && c.sender != Stopped
    ensures Enabled(c, a)
  {
    hide QueueLog, WireLog, HoldLog, CountLog;
    match c.sender
    case Top => a := Loop;
    case Connecting => a := ConnectFailed;
    case Sending(_) => a := Sent;
    case Popping =>
      match c.m.consumer {
        case Idle(_) => a := Popped;
        case Notifying(_, _) => a := Monitor(Signal(Consumer));
        case Leaving(_, _, _) => a := Monitor(Unlock(Consumer));
        case Inside(_) => a := Monitor(Body(Consumer));
        case _ => a := Monitor(Acquire(Consumer));
      }
  }

  /**
    The join returns: once the destructor joins, at most seven steps of the whole program are left,
    and a run that cannot be continued has reached the end of the sender thread.
   */
  lemma {:induction false} JoinEnds(cs: seq<Client>, actions: seq<Action>, n: nat)
    requires Run(cs, actions) && n <= |actions| && cs[n].app == Joining
    ensures cs[|actions|].app == Joining && |actions| - n <= Remaining(cs[n]) - Remaining(cs[|actions|]) <= 7
    ensures (exists a :: Enabled(cs[|actions|], a)) <==> cs[|actions|].sender != Stopped
    decreases |actions| - n
  {
    hide Inv, Initial, Do, Enabled, Remaining;
    RunInv(cs, actions, n);
    if n == |actions| {
      if cs[n].sender != Stopped {
        var a := JoinProgress(cs[n]);
      }
      if cs[n].sender == Stopped {
        StoppedIsEnd(cs[n]);
      }
    } else {
      JoinStep(cs[n], actions[n]);
      JoinEnds(cs, actions, n + 1);
    }
  }

  lemma StoppedIsEnd(c: Client)
    requires Inv(c) && c.app == Joining && c.sender == Stopped
    ensures forall a :: !Enabled(c, a)
  {
    forall a ensures !Enabled(c, a) {
      if Enabled(c, a) {
        JoinStep(c, a);
      }
    }
  }
}
