/**
  The monitor of one producer and one consumer thread around a queue.

  The critical sections are methods of a class. Around them, locking, waiting, unlocking and notifying
  are separate atomic steps of the two threads, in any interleaving and with spurious wakeups.
 */
module ThreadsafeQueues {
  datatype Op<T> =
    | Push(v: T, max: nat)
    | PushOverflow(v: T, max: nat)
    | PushWaitIfFull(v: T, threshold: nat)
    | TriggerWakeup
    | Notify
    | Size
    | TryPop
    | WaitAndPop(prebuffering: nat)

  /** What a call gives back; Awakened is the ThreadsafeQueueWakeup exception. */
  datatype Result<T> = Nothing | Count(n: nat) | Overflowed(overflow: bool, n: nat) | Value(v: T) | Awakened

  /** The condition variables the_rx_notification and the_tx_notification. */
  datatype Cv = Rx | Tx

  /** What a critical section leaves behind; `notify` says whether a notification follows the unlock. */
  datatype Outcome<T> = Outcome(queue: seq<T>, wakeup: bool, result: Result<T>, notify: bool)

  //////////////////////////////////////////////////////////////////////////////
  //
  // Critical sections
  //
  //////////////////////////////////////////////////////////////////////////////

  /** What the asserts and the use of front() demand of a call. */
  predicate Proper<T>(op: Op<T>) {
    (op.PushOverflow? ==> op.max > 0) && (op.WaitAndPop? ==> op.prebuffering > 0)
  }

  predicate MustWait<T>(op: Op<T>, queue: seq<T>, wakeup: bool) {
    match op
    case PushWaitIfFull(_, threshold) => |queue| >= threshold
    case WaitAndPop(prebuffering) => |queue| < prebuffering && !wakeup
    case _ => false
  }

  /** The whole effect of a critical section that need not wait. */
  function Effect<T>(op: Op<T>, queue: seq<T>, wakeup: bool): Outcome<T>
    requires Proper(op) && !MustWait(op, queue, wakeup)
  {
    match op
    case Push(v, max) =>
      var after := if max == 0 || |queue| < max then queue + [v] else queue;
      Outcome(after, wakeup, Count(|after|), true)
    case PushOverflow(v, max) =>
      var kept := if |queue| >= max then queue[|queue| - max + 1..] else queue;
      Outcome(kept + [v], wakeup, Overflowed(|queue| >= max, |kept| + 1), true)
    case PushWaitIfFull(v, _) => Outcome(queue + [v], wakeup, Count(|queue| + 1), true)
    case TriggerWakeup => Outcome(queue, true, Nothing, true)
    case Notify => Outcome(queue, wakeup, Nothing, true)
    case Size => Outcome(queue, wakeup, Count(|queue|), false)
    case TryPop =>
      if queue == [] then Outcome(queue, wakeup, Nothing, false) else Outcome(queue[1..], wakeup, Value(queue[0]), true)
    case WaitAndPop(_) =>
      if wakeup then Outcome(queue, false, Awakened, false) else Outcome(queue[1..], wakeup, Value(queue[0]), true)
  }

  class ThreadsafeQueue<T> {
    var theQueue: seq<T>
    var wakeupRequested: bool

    constructor ()
      ensures theQueue == [] && !wakeupRequested
    {
      theQueue, wakeupRequested := [], false;
    }

    /** The fields, with a result and the decision to notify. */
    function Now(result: Result<T>, notify: bool): Outcome<T>
      reads this
    {
      Outcome(theQueue, wakeupRequested, result, notify)
    }

    method Push(val: T, maxSize: nat) returns (queueSize: nat)
      modifies this
      ensures Now(Count(queueSize), true) == Effect(Op.Push(val, maxSize), old(theQueue), old(wakeupRequested))
      ensures maxSize == 0 || |old(theQueue)| < maxSize ==> theQueue == old(theQueue) + [val]
      ensures 0 < maxSize <= |old(theQueue)| ==> theQueue == old(theQueue)
      ensures queueSize == |theQueue| && wakeupRequested == old(wakeupRequested)
    {
      var queueSizeBefore := |theQueue|;
      if maxSize == 0 {
        theQueue := theQueue + [val];
      } else if queueSizeBefore < maxSize {
        theQueue := theQueue + [val];
      }
      queueSize := |theQueue|;
    }

    method PushOverflow(val: T, maxSize: nat) returns (overflow: bool, queueSize: nat)
      requires maxSize > 0
      modifies this
      ensures Now(Overflowed(overflow, queueSize), true)
           == Effect(Op.PushOverflow(val, maxSize), old(theQueue), old(wakeupRequested))
      ensures overflow <==> |old(theQueue)| >= maxSize
      ensures queueSize == |theQueue| == if overflow then maxSize else |old(theQueue)| + 1
      ensures theQueue == (old(theQueue) + [val])[|old(theQueue)| + 1 - queueSize..]
      ensures wakeupRequested == old(wakeupRequested)
    {
      overflow := false;
      ghost var dropped := 0;
      while |theQueue| >= maxSize
        invariant dropped <= |old(theQueue)| && theQueue == old(theQueue)[dropped..]
        invariant dropped > 0 ==> |old(theQueue)| - dropped >= maxSize - 1
        invariant overflow == (dropped > 0) && wakeupRequested == old(wakeupRequested)
        decreases |theQueue|
      {
        overflow := true;
        theQueue := theQueue[1..];
        dropped := dropped + 1;
      }
      theQueue := theQueue + [val];
      queueSize := |theQueue|;
    }

    method PushBelow(val: T, threshold: nat) returns (queueSize: nat)
      requires |theQueue| < threshold
      modifies this
      ensures Now(Count(queueSize), true) == Effect(PushWaitIfFull(val, threshold), old(theQueue), old(wakeupRequested))
      ensures theQueue == old(theQueue) + [val] && queueSize == |theQueue| <= threshold
      ensures wakeupRequested == old(wakeupRequested)
    {
      theQueue := theQueue + [val];
      queueSize := |theQueue|;
    }

    method TriggerWakeup()
      modifies this
      ensures Now(Nothing, true) == Effect(Op.TriggerWakeup, old(theQueue), old(wakeupRequested))
      ensures wakeupRequested && theQueue == old(theQueue)
    {
      wakeupRequested := true;
    }

    method TryPop(previous: T) returns (found: bool, popped: T)
      modifies this
      ensures found ==> Now(Value(popped), true) == Effect(Op.TryPop, old(theQueue), old(wakeupRequested))
      ensures !found ==> Now(Nothing, false) == Effect(Op.TryPop, old(theQueue), old(wakeupRequested))
      ensures found <==> old(theQueue) != []
      ensures found ==> [popped] + theQueue == old(theQueue)
      ensures !found ==> popped == previous && theQueue == old(theQueue)
      ensures wakeupRequested == old(wakeupRequested)
    {
      if theQueue == [] {
        return false, previous;
      }
      popped := theQueue[0];
      theQueue := theQueue[1..];
      found := true;
    }

    method PopAwake(previous: T, prebuffering: nat) returns (awakened: bool, popped: T)
      requires prebuffering > 0 && (|theQueue| >= prebuffering || wakeupRequested)
      modifies this
      ensures awakened ==> Now(Awakened, false) == Effect(WaitAndPop(prebuffering), old(theQueue), old(wakeupRequested))
      ensures awakened <==> old(wakeupRequested)
      ensures awakened ==> !wakeupRequested && theQueue == old(theQueue) && popped == previous
      ensures !awakened ==> !wakeupRequested && [popped] + theQueue == old(theQueue)
      ensures !awakened ==>
                Now(Value(popped), true) == Effect(WaitAndPop(prebuffering), old(theQueue), old(wakeupRequested))
    {
      awakened, popped := false, previous;
      if wakeupRequested {
        wakeupRequested := false;
        awakened := true;
      } else {
        popped := theQueue[0];
        theQueue := theQueue[1..];
      }
    }
  }

  //////////////////////////////////////////////////////////////////////////////
  //
  // Two threads
  //
  //////////////////////////////////////////////////////////////////////////////

  datatype Thread = Producer | Consumer

  function Other(t: Thread): Thread {
    if t == Producer then Consumer else Producer
  }

  /** Where a thread is; Woken has left the condition variable and wants the mutex back. */
  datatype Pc<T> =
    | Idle(result: Result<T>)
    | Entering(op: Op<T>)
    | Inside(op: Op<T>)
    | Asleep(op: Op<T>)
    | Woken(op: Op<T>)
    | Leaving(op: Op<T>, result: Result<T>, notify: bool)
    | Notifying(op: Op<T>, result: Result<T>)

  datatype Mutex = Free | Held(t: Thread)

  datatype State<T> = State(queue: seq<T>, wakeup: bool, lock: Mutex, producer: Pc<T>, consumer: Pc<T>)

  function At<T>(s: State<T>, t: Thread): Pc<T> {
    if t == Producer then s.producer else s.consumer
  }

  function Move<T>(s: State<T>, t: Thread, pc: Pc<T>): State<T> {
    if t == Producer then s.(producer := pc) else s.(consumer := pc)
  }

  /** The condition variable that an operation waits on, and the one it notifies. */
  function WaitsOn<T>(op: Op<T>): Cv {
    if op.PushWaitIfFull? then Tx else Rx
  }

  function Notifies<T>(op: Op<T>): Cv {
    if op.TryPop? || op.WaitAndPop? then Tx else Rx
  }

  /** Each thread uses the operations of its side; sizes and non-waiting pops are open to both. */
  predicate Allowed<T>(t: Thread, op: Op<T>) {
    Proper(op) && (if t == Producer then !op.WaitAndPop? else op.Size? || op.TryPop? || op.WaitAndPop?)
  }

  datatype Label<T> = Call(t: Thread, op: Op<T>) | Acquire(t: Thread) | Wait(t: Thread) | Body(t: Thread)
                    | Unlock(t: Thread) | Signal(t: Thread) | Spurious(t: Thread)

  predicate Initial<T>(s: State<T>) {
    s.queue == [] && !s.wakeup && s.lock == Free && s.producer == Idle(Nothing) && s.consumer == Idle(Nothing)
  }

  predicate Enabled<T>(s: State<T>, l: Label<T>) {
    var pc := At(s, l.t);
    match l
    case Call(t, op) => pc.Idle? && Allowed(t, op)
    case Acquire(t) => (pc.Entering? || pc.Woken?) && s.lock == Free
    case Wait(t) => pc.Inside? && MustWait(pc.op, s.queue, s.wakeup)
    case Body(t) => pc.Inside? && Proper(pc.op) && !MustWait(pc.op, s.queue, s.wakeup)
    case Unlock(t) => pc.Leaving?
    case Signal(t) => pc.Notifying?
    case Spurious(t) => pc.Asleep?
  }

  function Apply<T>(s: State<T>, l: Label<T>): State<T>
    requires Enabled(s, l)
  {
    var pc := At(s, l.t);
    match l
    case Call(t, op) => Move(s, t, if op.Notify? then Notifying(op, Nothing) else Entering(op))
    case Acquire(t) => Move(s.(lock := Held(t)), t, Inside(pc.op))
    case Wait(t) => Move(s.(lock := Free), t, Asleep(pc.op))
    case Body(t) =>
      var o := Effect(pc.op, s.queue, s.wakeup);
      Move(s.(queue := o.queue, wakeup := o.wakeup), t, Leaving(pc.op, o.result, o.notify))
    case Unlock(t) =>
      Move(s.(lock := Free), t, if pc.notify then Notifying(pc.op, pc.result) else Idle(pc.result))
    case Signal(t) =>
      var other := At(s, Other(t));
      var woken := other.Asleep? && WaitsOn(other.op) == Notifies(pc.op);
      Move(if woken then Move(s, Other(t), Woken(other.op)) else s, t, Idle(pc.result))
    case Spurious(t) => Move(s, t, Woken(pc.op))
  }

  /** One atomic step: releasing the mutex and falling asleep is one, unlocking and notifying are two. */
  ghost predicate Step<T>(s: State<T>, l: Label<T>, s': State<T>) {
    Enabled(s, l) && s' == Apply(s, l)
  }

  //////////////////////////////////////////////////////////////////////////////
  //
  // What every step keeps
  //
  //////////////////////////////////////////////////////////////////////////////

  /** The mutex is held by the thread inside its critical section, and by no two. */
  predicate HoldsMutex<T>(pc: Pc<T>) {
    pc.Inside? || pc.Leaving?
  }

  /** A thread past its critical section that has yet to notify the condition variable. */
  predicate WillNotify<T>(pc: Pc<T>, cv: Cv) {
    ((pc.Leaving? && pc.notify) || pc.Notifying?) && Notifies(pc.op) == cv
  }

  /** No lost wakeup: if a sleeping thread need not wait any more, a notification for it is under way. */
  predicate NoLostWakeup<T>(s: State<T>, t: Thread) {
    At(s, t).Asleep? && !MustWait(At(s, t).op, s.queue, s.wakeup) ==> WillNotify(At(s, Other(t)), WaitsOn(At(s, t).op))
  }

  predicate ThreadInv<T>(s: State<T>, t: Thread) {
    var pc := At(s, t);
    && (s.lock == Held(t) <==> HoldsMutex(pc))
    && (!pc.Idle? ==> Allowed(t, pc.op))
    && (pc.Asleep? || pc.Woken? ==> pc.op.PushWaitIfFull? || pc.op.WaitAndPop?)
    && NoLostWakeup(s, t)
  }

  predicate Inv<T>(s: State<T>) {
    ThreadInv(s, Producer) && ThreadInv(s, Consumer)
  }

  lemma InitialInv<T>(s: State<T>)
    requires Initial(s)
    ensures Inv(s)
  {}

  /** A critical section that ends the need of the other thread to wait also notifies it. */
  lemma EffectNotifies<T>(t: Thread, op: Op<T>, waiting: Op<T>, queue: seq<T>, wakeup: bool)
    requires Allowed(t, op) && Allowed(Other(t), waiting) && (waiting.PushWaitIfFull? || waiting.WaitAndPop?)
    requires !MustWait(op, queue, wakeup) && MustWait(waiting, queue, wakeup)
    ensures var o := Effect(op, queue, wakeup);
            !MustWait(waiting, o.queue, o.wakeup) ==> o.notify && Notifies(op) == WaitsOn(waiting)
  {}

  /**
    The consumer is notified by every push and every wakeup request, the producer by every element
    taken, and nobody by anything else.
   */
  lemma WhoIsNotified<T>(op: Op<T>, queue: seq<T>, wakeup: bool)
    requires Proper(op) && !MustWait(op, queue, wakeup)
    ensures var o := Effect(op, queue, wakeup);
            && (o.notify && Notifies(op) == Rx <==>
                  op.Push? || op.PushOverflow? || op.PushWaitIfFull? || op.TriggerWakeup? || op.Notify?)
            && (o.notify && Notifies(op) == Tx <==> o.result.Value?)
  {}

  lemma BodyInv<T>(s: State<T>, t: Thread, s': State<T>)
    requires Inv(s) && Step(s, Body(t), s')
    ensures Inv(s')
  {
    hide Effect, MustWait;
    var other := At(s, Other(t));
    if other.Asleep? {
      EffectNotifies(t, At(s, t).op, other.op, s.queue, s.wakeup);
    }
  }

  lemma SignalInv<T>(s: State<T>, t: Thread, s': State<T>)
    requires Inv(s) && Step(s, Signal(t), s')
    ensures Inv(s')
  {
    hide Effect, MustWait;
  }

  /** Every step of either thread keeps the invariant. */
  lemma StepInv<T>(s: State<T>, l: Label<T>, s': State<T>)
    requires Inv(s) && Step(s, l, s')
    ensures Inv(s')
  {
    hide Effect;
    match l
    case Body(t) => BodyInv(s, t, s');
    case Signal(t) => SignalInv(s, t, s');
    case _ =>
  }

  //////////////////////////////////////////////////////////////////////////////
  //
  // Whole runs
  //
  //////////////////////////////////////////////////////////////////////////////

  ghost predicate Run<T>(ss: seq<State<T>>, ls: seq<Label<T>>) {
    |ss| == |ls| + 1 && Initial(ss[0]) && forall n :: 0 <= n < |ls| ==> Step(ss[n], ls[n], ss[n + 1])
  }

  /** In every interleaving: mutual exclusion, and no wakeup is ever lost. */
  lemma {:induction false} RunInv<T>(ss: seq<State<T>>, ls: seq<Label<T>>, n: nat)
    requires Run(ss, ls) && n <= |ls|
    ensures Inv(ss[n])
  {
    hide Step, Inv, Initial;
    if n == 0 {
      InitialInv(ss[0]);
    } else {
      RunInv(ss, ls, n - 1);
      StepInv(ss[n - 1], ls[n - 1], ss[n]);
    }
  }

  /** Both threads are never asleep at once when the consumer asks for no more than the producer's threshold. */
  lemma NeverBothAsleep<T>(ss: seq<State<T>>, ls: seq<Label<T>>, n: nat)
    requires Run(ss, ls) && n <= |ls|
    requires ss[n].producer.Asleep? && ss[n].consumer.Asleep?
    ensures ss[n].producer.op.PushWaitIfFull? && ss[n].consumer.op.WaitAndPop?
    ensures ss[n].consumer.op.prebuffering > ss[n].producer.op.threshold
  {
    RunInv(ss, ls, n);
    BothAsleepWait(ss[n]);
  }

  lemma BothAsleepWait<T>(s: State<T>)
    requires Inv(s) && s.producer.Asleep? && s.consumer.Asleep?
    ensures MustWait(s.producer.op, s.queue, s.wakeup) && MustWait(s.consumer.op, s.queue, s.wakeup)
    ensures s.producer.op.PushWaitIfFull? && s.consumer.op.WaitAndPop?
  {
    hide MustWait;
  }

  /** The notification that is under way arrives: after the other thread's next two steps the sleeper is awake. */
  lemma WakeupArrives<T>(s: State<T>, t: Thread) returns (woken: State<T>)
    requires Inv(s) && At(s, t).Asleep? && !MustWait(At(s, t).op, s.queue, s.wakeup)
    ensures var o := Other(t);
            if At(s, o).Leaving? then
              Step(s, Unlock(o), Apply(s, Unlock(o))) && Step(Apply(s, Unlock(o)), Signal(o), woken)
            else Step(s, Signal(o), woken)
    ensures At(woken, t) == Woken(At(s, t).op) && woken.queue == s.queue && woken.wakeup == s.wakeup
  {
    hide MustWait, Effect;
    var o := Other(t);
    var unlocked := if At(s, o).Leaving? then Apply(s, Unlock(o)) else s;
    woken := Apply(unlocked, Signal(o));
  }

  function Copies<T>(v: T, n: nat): (q: seq<T>)
    ensures |q| == n
  {
    seq(n, _ => v)
  }

  lemma RunGrows<T>(ss: seq<State<T>>, ls: seq<Label<T>>, l: Label<T>)
    requires Run(ss, ls) && Enabled(ss[|ls|], l)
    ensures Run(ss + [Apply(ss[|ls|], l)], ls + [l])
  {
    hide Enabled, Apply, Initial;
  }

  /** A run in which the producer pushes n elements and the consumer does nothing. */
  lemma {:induction false} FillQueue<T>(v: T, n: nat) returns (ss: seq<State<T>>, ls: seq<Label<T>>)
    ensures Run(ss, ls) && ss[|ls|].producer.Idle?
    ensures ss[|ls|] == State(Copies(v, n), false, Free, ss[|ls|].producer, Idle(Nothing))
  {
    if n == 0 {
      ss, ls := [State([], false, Free, Idle(Nothing), Idle(Nothing))], [];
    } else {
      ss, ls := FillQueue(v, n - 1);
      var s := ss[|ls|];
      ss, ls := PushRun(ss, ls, v);
      assert Copies(v, n - 1) + [v] == Copies(v, n);
    }
  }

  /** A push of the producer from beginning to end, with nobody waiting. */
  lemma PushRun<T>(ss0: seq<State<T>>, ls0: seq<Label<T>>, v: T) returns (ss: seq<State<T>>, ls: seq<Label<T>>)
    requires Run(ss0, ls0) && |ss0| == |ls0| + 1
    requires ss0[|ls0|].producer.Idle? && ss0[|ls0|].lock == Free && ss0[|ls0|].consumer.Idle?
    ensures Run(ss, ls) && |ss| == |ls| + 1
    ensures var s := ss0[|ls0|];
            ss[|ls|] == s.(queue := s.queue + [v], producer := Idle(Count(|s.queue| + 1)))
  {
    hide Run;
    ss, ls := ss0, ls0;
    ss, ls := OneStep(ss, ls, Call(Producer, Push(v, 0)));
    ss, ls := OneStep(ss, ls, Acquire(Producer));
    ss, ls := OneStep(ss, ls, Body(Producer));
    ss, ls := OneStep(ss, ls, Unlock(Producer));
    ss, ls := OneStep(ss, ls, Signal(Producer));
  }

  lemma OneStep<T>(ss0: seq<State<T>>, ls0: seq<Label<T>>, l: Label<T>) returns (ss: seq<State<T>>, ls: seq<Label<T>>)
    requires Run(ss0, ls0) && |ss0| == |ls0| + 1 && Enabled(ss0[|ls0|], l)
    ensures Run(ss, ls) && |ss| == |ls| + 1 && ss[|ls|] == Apply(ss0[|ls0|], l)
  {
    hide Run;
    RunGrows(ss0, ls0, l);
    ss, ls := ss0 + [Apply(ss0[|ls0|], l)], ls0 + [l];
  }

  /** Beyond that they can: for every prebuffering above the threshold some interleaving puts both to sleep. */
  lemma BothAsleepPossible<T>(v: T, threshold: nat, prebuffering: nat) returns (ss: seq<State<T>>, ls: seq<Label<T>>)
    requires prebuffering > threshold
    ensures Run(ss, ls)
    ensures ss[|ls|].producer == Asleep(PushWaitIfFull(v, threshold))
    ensures ss[|ls|].consumer == Asleep(WaitAndPop(prebuffering))
  {
    ss, ls := FillQueue(v, threshold);
    hide Run;
    ss, ls := OneStep(ss, ls, Call(Producer, PushWaitIfFull(v, threshold)));
    ss, ls := OneStep(ss, ls, Acquire(Producer));
    ss, ls := OneStep(ss, ls, Wait(Producer));
    ss, ls := OneStep(ss, ls, Call(Consumer, WaitAndPop(prebuffering)));
    ss, ls := OneStep(ss, ls, Acquire(Consumer));
    ss, ls := OneStep(ss, ls, Wait(Consumer));
  }

  /** An interleaving with both threads asleep, one in push_wait_if_full and one in wait_and_pop. */
  ghost predicate SleepBoth<T>(ss: seq<State<T>>, ls: seq<Label<T>>, v: T, threshold: nat, prebuffering: nat) {
    && Run(ss, ls)
    && ss[|ls|].producer == Asleep(PushWaitIfFull(v, threshold))
    && ss[|ls|].consumer == Asleep(WaitAndPop(prebuffering))
  }

  /** The exact condition. */
  lemma BothAsleepExactly<T>(v: T, threshold: nat, prebuffering: nat)
    ensures (exists ss: seq<State<T>>, ls: seq<Label<T>> :: SleepBoth(ss, ls, v, threshold, prebuffering))
            <==> prebuffering > threshold
  {
    if prebuffering > threshold {
      var ss, ls := BothAsleepPossible(v, threshold, prebuffering);
      assert SleepBoth(ss, ls, v, threshold, prebuffering);
    }
    forall ss: seq<State<T>>, ls: seq<Label<T>> | SleepBoth(ss, ls, v, threshold, prebuffering)
      ensures prebuffering > threshold
    {
      NeverBothAsleep(ss, ls, |ls|);
    }
  }

  /** Both threads wait, or have been woken in vain and will wait again. */
  predicate Blocked<T>(s: State<T>) {
    forall t: Thread ::
      var pc := At(s, t);
      (pc.Asleep? || pc.Woken? || pc.Inside?) && MustWait(pc.op, s.queue, s.wakeup)
  }

  /** And then they sleep for good: no step, spurious wakeups included, ever leads out. */
  lemma BlockedForGood<T>(s: State<T>, l: Label<T>, s': State<T>)
    ensures Inv(s) && s.producer.Asleep? && s.consumer.Asleep? ==> Blocked(s)
    ensures Blocked(s) && Step(s, l, s') ==> Blocked(s') && s'.queue == s.queue
  {
    hide MustWait;
    if Inv(s) && s.producer.Asleep? && s.consumer.Asleep? {
      BothAsleepWait(s);
    }
    if Blocked(s) && Step(s, l, s') {
      assert MustWait(At(s, l.t).op, s.queue, s.wakeup) && MustWait(At(s, Other(l.t)).op, s.queue, s.wakeup);
    }
  }

  /** A step that the scheduler can give to a thread without a new call and without a spurious wakeup. */
  predicate CanProceed<T>(s: State<T>, t: Thread) {
    Enabled(s, Acquire(t)) || Enabled(s, Wait(t)) || Enabled(s, Body(t)) || Enabled(s, Unlock(t)) ||
    Enabled(s, Signal(t))
  }

  predicate Waiting<T>(s: State<T>, t: Thread) {
    At(s, t).Asleep? && MustWait(At(s, t).op, s.queue, s.wakeup)
  }

  /**
    No deadlock: when neither thread can proceed, each is outside the monitor or waits for a condition
    that really does not hold; a thread that may go on is never stuck.
   */
  lemma StuckOnlyWaiting<T>(s: State<T>, t: Thread)
    requires Inv(s) && !CanProceed(s, Producer) && !CanProceed(s, Consumer)
    ensures At(s, t).Idle? || Waiting(s, t)
  {
    hide MustWait;
  }
}
