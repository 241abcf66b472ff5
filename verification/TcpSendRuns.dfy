/** What the actions of a run alone say about the client: what was sent, lost and discarded, and when. */
module TcpSendRuns {
  import opened TcpSendClient

  //////////////////////////////////////////////////////////////////////////////
  //
  // The log is that of the actions
  //
  //////////////////////////////////////////////////////////////////////////////

  /** The buffers that the application hands to sendall. */
  function Submitted(actions: seq<Action>): seq<Buffer> {
    if actions == [] then []
    else
      var a := actions[|actions| - 1];
      Submitted(actions[..|actions| - 1]) + if a.SendAll? then [a.buffer] else []
  }

  /** The transmissions that the socket takes. */
  function Successes(actions: seq<Action>): nat {
    if actions == [] then 0
    else Successes(actions[..|actions| - 1]) + if actions[|actions| - 1].Sent? then 1 else 0
  }

  /** The transmissions that fail or throw. */
  function Failures(actions: seq<Action>): nat {
    if actions == [] then 0
    else
      var a := actions[|actions| - 1];
      Failures(actions[..|actions| - 1]) + if a.SendFailed? || a.SendThrows? then 1 else 0
  }

  /** The last connection attempt succeeded, and no transmission has failed since. */
  predicate Linked(actions: seq<Action>) {
    if actions == [] then false
    else
      match actions[|actions| - 1]
      case Connected => true
      case ConnectFailed => false
      case SendFailed => false
      case _ => Linked(actions[..|actions| - 1])
  }

  /** The destructor has begun, or a transmission has thrown. */
  predicate Ended(actions: seq<Action>) {
    exists i :: 0 <= i < |actions| && (actions[i].Destroy? || actions[i].SendThrows?)
  }

  /** The state's log, its connection and its running flag follow from the actions. */
  lemma {:induction false} ActionsSay(cs: seq<Client>, actions: seq<Action>, n: nat)
    requires Run(cs, actions) && n <= |actions|
    ensures cs[n].submitted == Submitted(actions[..n])
    ensures |cs[n].wire| == Successes(actions[..n]) && cs[n].lost == Failures(actions[..n])
    ensures cs[n].connected <==> Linked(actions[..n])
    ensures cs[n].running <==> !Ended(actions[..n])
  {
    hide Enabled, Do, ThreadsafeQueues.Initial;
    if n > 0 {
      ActionsSay(cs, actions, n - 1);
      assert actions[..n][..n - 1] == actions[..n - 1];
      assert actions[..n] == actions[..n - 1] + [actions[n - 1]];
      LogStep(cs[n - 1], actions[n - 1]);
      EndedGrows(actions[..n - 1], actions[n - 1]);
    }
  }

  lemma EndedGrows(actions: seq<Action>, a: Action)
    ensures Ended(actions + [a]) <==> Ended(actions) || a.Destroy? || a.SendThrows?
  {
    var more := actions + [a];
    if i :| 0 <= i < |actions| && (actions[i].Destroy? || actions[i].SendThrows?) {
      assert more[i] == actions[i];
    }
    assert more[|actions|] == a;
  }

  lemma LogStep(c: Client, a: Action)
    requires Enabled(c, a)
    ensures var d := Do(c, a);
            && d.submitted == c.submitted + (if a.SendAll? then [a.buffer] else [])
            && |d.wire| == |c.wire| + (if a.Sent? then 1 else 0)
            && d.lost == c.lost + (if a.SendFailed? || a.SendThrows? then 1 else 0)
            && (d.connected <==> a.Connected? || (c.connected && !a.ConnectFailed? && !a.SendFailed?))
            && (d.running <==> c.running && !a.Destroy? && !a.SendThrows?)
  {}

  /** Once the destructor has begun or a transmission has thrown, sendall refuses every buffer. */
  lemma RefusedAtTheEnd(cs: seq<Client>, actions: seq<Action>, n: nat)
    requires Run(cs, actions) && n < |actions| && Ended(actions[..n])
    ensures !actions[n].SendAll?
  {
    hide Do;
    ActionsSay(cs, actions, n);
  }

  /** Nothing is transmitted without a connection: after a failure the sender connects again first. */
  lemma OnlyWhenConnected(cs: seq<Client>, actions: seq<Action>, n: nat)
    requires Run(cs, actions) && n < |actions|
    requires actions[n].Sent? || actions[n].SendFailed? || actions[n].SendThrows?
    ensures Linked(actions[..n])
  {
    hide Do;
    ActionsSay(cs, actions, n);
    BusyIsConnected(cs, actions, n);
  }

  lemma {:induction false} BusyIsConnected(cs: seq<Client>, actions: seq<Action>, n: nat)
    requires Run(cs, actions) && n <= |actions|
    ensures cs[n].sender == Popping || cs[n].sender.Sending? ==> cs[n].connected
  {
    if n > 0 {
      BusyIsConnected(cs, actions, n - 1);
    }
  }

  //////////////////////////////////////////////////////////////////////////////
  //
  // When everything arrives
  //
  //////////////////////////////////////////////////////////////////////////////

  /**
    With no failed transmission and nothing discarded, once queue, call and sender are empty the wire
    has carried exactly what was submitted.
   */
  lemma AllSent(cs: seq<Client>, actions: seq<Action>, n: nat)
    requires Run(cs, actions) && n <= |actions|
    requires Failures(actions[..n]) == 0 && cs[n].discarded == 0
    requires cs[n].m.queue == [] && InFlight(cs[n].m) == [] && cs[n].holding == Nobody
    ensures cs[n].wire == Submitted(actions[..n])
  {
    hide Do, Enabled;
    ActionsSay(cs, actions, n);
    RunInv(cs, actions, n);
    WholeLog(cs[n]);
  }

  lemma WholeLog(c: Client)
    requires QueueLog(c) && WireLog(c) && CountLog(c)
    requires c.lost == 0 && c.discarded == 0 && c.m.queue == [] && InFlight(c.m) == [] && c.holding == Nobody
    ensures c.wire == c.submitted
  {
    assert |c.submitted[c.removed..]| == 0;
    Dense(c.numbers, |c.submitted|);
  }

  /** As many increasing numbers as there are below n are all of them. */
  lemma {:induction false} Dense(numbers: seq<nat>, n: nat)
    requires |numbers| == n && forall i :: 0 <= i < n ==> numbers[i] < n
    requires forall i, j :: 0 <= i < j < n ==> numbers[i] < numbers[j]
    ensures forall i :: 0 <= i < n ==> numbers[i] == i
  {
    if n > 0 {
      assert forall i :: 0 <= i < n - 1 ==> numbers[i] < numbers[n - 1];
      Dense(numbers[..n - 1], n - 1);
      assert n > 1 ==> numbers[n - 2] == numbers[..n - 1][n - 2];
    }
  }

  /** Buffers are discarded only after the queue has held more than 512. */
  lemma {:induction false} NothingDiscarded(cs: seq<Client>, actions: seq<Action>, n: nat)
    requires Run(cs, actions) && n <= |actions|
    requires forall i :: 0 <= i < n ==> |cs[i].m.queue| <= 512
    ensures Unhurried(cs[n])
  {
    hide Do, Enabled, Inv, Unhurried;
    if n == 0 {
      StartsUnhurried(cs[0]);
    } else {
      NothingDiscarded(cs, actions, n - 1);
      RunInv(cs, actions, n - 1);
      UnhurriedStep(cs[n - 1], actions[n - 1]);
    }
  }

  /** Nothing has been discarded, and no size above 512 has been seen. */
  predicate Unhurried(c: Client) {
    && c.discarded == 0 && c.app != Discarding
    && (c.app == Sizing && HasResult(c.m.producer) ==> c.m.producer.result.Count? && c.m.producer.result.n <= 512)
  }

  lemma StartsUnhurried(c: Client)
    requires Initial(c)
    ensures Unhurried(c)
  {}

  lemma UnhurriedStep(c: Client, a: Action)
    requires Inv(c) && Enabled(c, a) && Unhurried(c) && |c.m.queue| <= 512
    ensures Unhurried(Do(c, a))
  {
    hide QueueLog, WireLog, HoldLog, CountLog, CloseInv;
  }

  /** The sender waits only while there is nothing to send: once no call is under way, the queue is empty. */
  lemma SleepsWhenEmpty(cs: seq<Client>, actions: seq<Action>, n: nat)
    requires Run(cs, actions) && n <= |actions|
    requires cs[n].m.consumer.Asleep? && cs[n].m.producer.Idle?
    ensures cs[n].m.queue == [] && !cs[n].m.wakeup
  {
    RunInv(cs, actions, n);
    AsleepIsEmpty(cs[n]);
  }

  lemma AsleepIsEmpty(c: Client)
    requires Inv(c) && c.m.consumer.Asleep? && c.m.producer.Idle?
    ensures c.m.queue == [] && !c.m.wakeup
  {
    hide QueueLog, WireLog, HoldLog, CountLog, CloseInv;
  }

  //////////////////////////////////////////////////////////////////////////////
  //
  // After the destructor's wakeup
  //
  //////////////////////////////////////////////////////////////////////////////

  lemma JoinLeavesQueue(c: Client, a: Action)
    requires Inv(c) && c.app == Joining && Enabled(c, a)
    ensures Do(c, a).m.queue == c.m.queue && Do(c, a).removed == c.removed && Do(c, a).discarded == c.discarded
  {
    hide QueueLog, WireLog, HoldLog, CountLog;
  }

  /**
    Once the destructor joins, no buffer leaves the queue any more: at most the one in hand is still
    sent, and none of those that are queued then.
   */
  lemma {:induction false} JoinFreezesQueue(cs: seq<Client>, actions: seq<Action>, n: nat, k: nat)
    requires Run(cs, actions) && n <= k <= |actions| && cs[n].app == Joining
    ensures cs[k].app == Joining
    ensures cs[k].m.queue == cs[n].m.queue && cs[k].removed == cs[n].removed
    ensures |cs[k].wire| <= |cs[n].wire| + Held(cs[n])
    ensures forall i :: i in cs[k].numbers ==> i < cs[n].removed
    decreases k - n
  {
    hide Inv, Do, Enabled, CountLog;
    RunInv(cs, actions, n);
    NumbersBelow(cs[n]);
    if n < k {
      JoinLeavesQueue(cs[n], actions[n]);
      JoinStep(cs[n], actions[n]);
      DoInv(cs[n], actions[n]);
      JoinFreezesQueue(cs, actions, n + 1, k);
      LogStep(cs[n], actions[n]);
      HeldCounts(cs[n], cs[n + 1]);
    }
  }

  lemma NumbersBelow(c: Client)
    requires Inv(c)
    ensures forall i :: i in c.numbers ==> i < c.removed
  {
    hide QueueLog, HoldLog, AppInv, SenderInv, CloseInv, CountLog, ThreadsafeQueues.Inv;
  }

  lemma HeldCounts(c: Client, d: Client)
    requires Inv(c) && Inv(d) && c.removed == d.removed && d.discarded >= c.discarded && d.lost >= c.lost
    ensures |d.wire| + Held(d) <= |c.wire| + Held(c)
  {
    hide QueueLog, WireLog, HoldLog, AppInv, SenderInv, CloseInv, ThreadsafeQueues.Inv;
  }
}
