/**
  Runs of the jitter buffer in which frames are lost or late: what leaves it, in which order, and
  when that is the order of the numbers.
 */
module LossyRuns {
  import opened Arithmetic
  import opened OrderedQueues
  import opened QueueRuns

  /** A stored frame: its number, and whether it came after a pop had passed that number. */
  datatype Entry = Entry(n: nat, late: bool)

  /** What is stored under each index, and what has left. */
  datatype Ledger = Ledger(owner: map<int, Entry>, out: seq<Entry>)

  /** The number behind the last delivered one. */
  function NextNumber(first: nat, out: seq<Entry>): nat {
    if out == [] then first else out[|out| - 1].n + 1
  }

  /** One operation: an accepted arrival is entered, a popped index moves to the delivered frames. */
  function Advance(l: Ledger, stored: nat, op: Op, e: Event, max: int, capacity: nat, first: nat): Ledger
    requires 0 < max
  {
    match op
    case Arrive(n) =>
      if stored < capacity then l.(owner := l.owner[Residue(n, max) := Entry(n, n < NextNumber(first, l.out))]) else l
    case Fetch =>
      if e.Popped? && e.index in l.owner then Ledger(l.owner - {e.index}, l.out + [l.owner[e.index]]) else l
  }

  /** The ledger after k operations. */
  ghost function LedgerAt(max: int, capacity: nat, ss: seq<State>, es: seq<Event>, ops: seq<Op>, first: nat,
                          k: nat): Ledger
    requires 0 < max && k <= |ops| == |es| < |ss|
  {
    if k == 0 then Ledger(map[], [])
    else
      Advance(LedgerAt(max, capacity, ss, es, ops, first, k - 1), |ss[k - 1].stock|, ops[k - 1], es[k - 1],
              max, capacity, first)
  }

  //////////////////////////////////////////////////////////////////////////////
  //
  // Every delivered frame is one that arrived
  //
  //////////////////////////////////////////////////////////////////////////////

  /** The ledger accounts for the stock. */
  ghost predicate Accounts(l: Ledger, stock: map<int, Frame>, max: int, content: nat -> Frame)
    requires 0 < max
  {
    && l.owner.Keys == stock.Keys
    && forall i :: i in l.owner ==> Residue(l.owner[i].n, max) == i && stock[i] == content(l.owner[i].n)
  }

  /** The parts that the delivered entries stand for. */
  function PartsOf(out: seq<Entry>, max: int, content: nat -> Frame): (ps: seq<Part>)
    requires 0 < max
    ensures |ps| == |out|
    ensures forall j :: 0 <= j < |out| ==> ps[j] == Part(Residue(out[j].n, max), content(out[j].n))
  {
    seq(|out|, j requires 0 <= j < |out| => Part(Residue(out[j].n, max), content(out[j].n)))
  }

  lemma AccountsStep(l: Ledger, s: State, t: State, op: Op, e: Event, max: int, capacity: nat, first: nat,
                     content: nat -> Frame)
    requires Sound(max, capacity, s) && Step(max, capacity, s, e, t) && Accounts(l, s.stock, max, content)
    requires if op.Arrive? then e == Pushed(Residue(op.n, max), content(op.n)) else !e.Pushed?
    ensures var m := Advance(l, |s.stock|, op, e, max, capacity, first);
            && Accounts(m, t.stock, max, content)
            && PartsOf(m.out, max, content)
               == PartsOf(l.out, max, content) + (if e.Popped? then [Part(e.index, e.frame)] else [])
            && (e.Popped? ==> e.index in l.owner && m == Ledger(l.owner - {e.index}, l.out + [l.owner[e.index]]))
            && (e.Nothing? ==> m == l)
  {
    hide Residue, Index, Wrap, Distance, NextNumber;
    if op.Arrive? {
      ResidueIsIndex(op.n, max);
    }
  }

  /** What leaves a run is, pop by pop, the frame that the ledger says, with its own content. */
  lemma {:induction false} DeliveredParts(max: int, capacity: nat, ss: seq<State>, es: seq<Event>, ops: seq<Op>,
                                          first: nat, content: nat -> Frame, k: nat)
    requires Run(max, capacity, ss, es) && CarriesOut(es, ops, max, content) && k <= |es|
    ensures var l := LedgerAt(max, capacity, ss, es, ops, first, k);
            Accounts(l, ss[k].stock, max, content) && PartsOf(l.out, max, content) == Fetched(es[..k])
  {
    hide Step, Sound, Advance, Residue, PartsOf;
    if k > 0 {
      DeliveredParts(max, capacity, ss, es, ops, first, content, k - 1);
      RunSound(max, capacity, ss, es, k - 1);
      AccountsStep(LedgerAt(max, capacity, ss, es, ops, first, k - 1), ss[k - 1], ss[k], ops[k - 1], es[k - 1],
                   max, capacity, first, content);
      assert es[..k][..k - 1] == es[..k - 1];
    }
  }

  //////////////////////////////////////////////////////////////////////////////
  //
  // Order
  //
  //////////////////////////////////////////////////////////////////////////////

  ghost predicate Increasing(out: seq<Entry>) {
    forall i, j :: 0 <= i < j < |out| ==> out[i].n < out[j].n
  }

  ghost predicate Punctual(out: seq<Entry>) {
    forall i :: 0 <= i < |out| ==> !out[i].late
  }

  /** An arrival less than one turn of the index away from the next number; the first one is number first. */
  ghost predicate Near(s: State, op: Op, next: nat, max: int, first: nat) {
    op.Arrive? ==> next - max < op.n < next + max && (s.last == -1 ==> op.n == first)
  }

  ghost predicate AllNear(max: int, capacity: nat, ss: seq<State>, es: seq<Event>, ops: seq<Op>, first: nat)
    requires 0 < max && |ops| == |es| < |ss|
  {
    forall k :: 0 <= k < |ops| ==>
      Near(ss[k], ops[k], NextNumber(first, LedgerAt(max, capacity, ss, es, ops, first, k).out), max, first)
  }

  /** The stock seen from the next number: punctual frames lie within the turn ahead of it, late ones behind. */
  ghost predicate Ahead(l: Ledger, s: State, max: int, capacity: nat, first: nat)
    requires 0 < max
  {
    var next := NextNumber(first, l.out);
    && (s.last == -1 ==> l.owner == map[] && l.out == [])
    && (s.last != -1 ==> -1 < s.last < max && Wrap(max, s.last + 1) == Residue(next, max))
    && (forall i :: i in l.owner && !l.owner[i].late ==> next <= l.owner[i].n < next + max)
    && (forall i :: i in l.owner && l.owner[i].late ==> l.owner[i].n < next)
    && (s.last != -1 && l.out == [] && capacity > 0 ==>
          Residue(first, max) in l.owner && l.owner[Residue(first, max)] == Entry(first, false))
  }

  /** Within the turn ahead, distances on the circle are differences of numbers. */
  lemma DistanceOfNumber(max: int, last: int, next: nat, n: nat)
    requires 0 < max && -1 <= last < max && Wrap(max, last + 1) == Residue(next, max) && next <= n < next + max
    ensures Distance(max, last, Residue(n, max)) == n - next
  {
    hide Residue;
    ResidueAhead(next, n - next, max);
    DistanceIs(max, last, n - next, Residue(n, max));
  }

  lemma AheadArrival(l: Ledger, s: State, t: State, n: nat, max: int, capacity: nat, first: nat, content: nat -> Frame)
    requires Sound(max, capacity, s) && Accounts(l, s.stock, max, content) && Ahead(l, s, max, capacity, first)
    requires Step(max, capacity, s, Pushed(Residue(n, max), content(n)), t)
    requires Near(s, Arrive(n), NextNumber(first, l.out), max, first)
    ensures Ahead(Advance(l, |s.stock|, Arrive(n), Pushed(Residue(n, max), content(n)), max, capacity, first), t, max,
                  capacity, first)
  {
    hide Residue, Index, Distance;
    ResidueIsIndex(n, max);
    if s.last != -1 && l.out == [] && Residue(n, max) == Residue(first, max) {
      ResidueUnique(max, if n < first then n else first, n, first);
    }
    if s.last == -1 {
      PredecessorOf(max, Residue(n, max));
    }
  }

  lemma PredecessorOf(max: int, i: int)
    requires 0 < max && 0 <= i < max
    ensures 0 <= Wrap(max, i + max - 1) < max && Wrap(max, Wrap(max, i + max - 1) + 1) == i
  {}

  /**
    A punctual frame leaves in order, and the others that are punctual stay ahead; a late one leaves
    behind a greater or equal number.
   */
  lemma PopOrder(l: Ledger, s: State, t: State, i: int, frame: Frame, max: int, capacity: nat, first: nat,
                 content: nat -> Frame)
    requires Sound(max, capacity, s) && Accounts(l, s.stock, max, content) && Ahead(l, s, max, capacity, first)
    requires Step(max, capacity, s, Popped(i, frame), t)
    ensures i in l.owner
    ensures var x := l.owner[i];
            if x.late then l.out != [] && x.n < NextNumber(first, l.out)
            else x.n >= NextNumber(first, l.out) && Ahead(Ledger(l.owner - {i}, l.out + [x]), t, max, capacity, first)
  {
    hide Residue, Distance, Wrap;
    var x, next := l.owner[i], NextNumber(first, l.out);
    if x.late {
      if l.out == [] {
        DistanceOfNumber(max, s.last, first, first);
        DistanceIs(max, s.last, 0, Residue(first, max));
        DistanceIs(max, s.last, 0, i);
      }
    } else {
      DistanceOfNumber(max, s.last, next, x.n);
      forall j | j in l.owner && j != i && !l.owner[j].late ensures x.n < l.owner[j].n {
        DistanceOfNumber(max, s.last, next, l.owner[j].n);
      }
      NextResidue(x.n, max);
      WrapNext(max, i);
    }
  }

  lemma WrapNext(max: int, i: int)
    requires 0 < max && 0 <= i < max
    ensures Wrap(max, i + 1) == if i + 1 == max then 0 else i + 1
  {}

  lemma IncreasingSnoc(out: seq<Entry>, x: Entry, first: nat)
    ensures Increasing(out + [x]) ==> Increasing(out)
    ensures Increasing(out) && (out == [] || x.n >= NextNumber(first, out)) ==> Increasing(out + [x])
    ensures out != [] && x.n < NextNumber(first, out) ==> !Increasing(out + [x])
    ensures Punctual(out + [x]) <==> Punctual(out) && !x.late
  {
    var more := out + [x];
    if Increasing(more) {
      forall i, j | 0 <= i < j < |out| ensures out[i].n < out[j].n {
        assert more[i] == out[i] && more[j] == out[j];
      }
    }
    if out != [] && x.n < NextNumber(first, out) {
      assert more[|out| - 1].n >= more[|out|].n;
    }
    if Punctual(more) {
      forall i | 0 <= i < |out| ensures !out[i].late {
        assert more[i] == out[i];
      }
      assert more[|out|] == x;
    }
  }

  lemma OrderStep(l: Ledger, s: State, t: State, op: Op, e: Event, max: int, capacity: nat, first: nat,
                  content: nat -> Frame)
    requires Sound(max, capacity, s) && Step(max, capacity, s, e, t) && Accounts(l, s.stock, max, content)
    requires if op.Arrive? then e == Pushed(Residue(op.n, max), content(op.n)) else !e.Pushed?
    requires Near(s, op, NextNumber(first, l.out), max, first)
    requires (Increasing(l.out) <==> Punctual(l.out)) && (Punctual(l.out) ==> Ahead(l, s, max, capacity, first))
    ensures var m := Advance(l, |s.stock|, op, e, max, capacity, first);
            (Increasing(m.out) <==> Punctual(m.out)) && (Punctual(m.out) ==> Ahead(m, t, max, capacity, first))
  {
    hide Residue, Step, Sound, Ahead, Near, Increasing, Punctual, Accounts;
    AccountsStep(l, s, t, op, e, max, capacity, first, content);
    if e.Popped? {
      IncreasingSnoc(l.out, l.owner[e.index], first);
      if Punctual(l.out) {
        PopOrder(l, s, t, e.index, e.frame, max, capacity, first, content);
      }
    } else if op.Arrive? {
      if Punctual(l.out) {
        AheadArrival(l, s, t, op.n, max, capacity, first, content);
      }
    } else {
      NothingChanges(max, capacity, s, t);
    }
  }

  lemma NothingChanges(max: int, capacity: nat, s: State, t: State)
    requires Sound(max, capacity, s) && Step(max, capacity, s, Nothing, t)
    ensures t == s
  {}

  /**
    When pops keep the order: with arrivals less than one turn of the index from the next number, the
    frames leave in strictly increasing order of their numbers if and only if none of them had come
    after a pop had passed its number.
   */
  lemma {:induction false} OrderExactly(max: int, capacity: nat, ss: seq<State>, es: seq<Event>, ops: seq<Op>,
                                        first: nat, content: nat -> Frame, k: nat)
    requires Run(max, capacity, ss, es) && CarriesOut(es, ops, max, content) && k <= |es|
    requires AllNear(max, capacity, ss, es, ops, first)
    ensures var l := LedgerAt(max, capacity, ss, es, ops, first, k);
            && (Increasing(l.out) <==> Punctual(l.out))
            && (Punctual(l.out) ==> Ahead(l, ss[k], max, capacity, first))
  {
    hide Residue, Step, Sound, Ahead, Near, Increasing, Punctual, Advance, Accounts, PartsOf, Fetched;
    if k == 0 {
      StartsAhead(max, capacity, first);
    } else {
      OrderExactly(max, capacity, ss, es, ops, first, content, k - 1);
      RunSound(max, capacity, ss, es, k - 1);
      DeliveredParts(max, capacity, ss, es, ops, first, content, k - 1);
      OrderStep(LedgerAt(max, capacity, ss, es, ops, first, k - 1), ss[k - 1], ss[k], ops[k - 1], es[k - 1],
                max, capacity, first, content);
    }
  }

  lemma StartsAhead(max: int, capacity: nat, first: nat)
    requires 0 < max
    ensures Ahead(Ledger(map[], []), State(-1, map[], 0, 0), max, capacity, first)
    ensures Increasing([]) && Punctual([])
  {}

  //////////////////////////////////////////////////////////////////////////////
  //
  // Losses
  //
  //////////////////////////////////////////////////////////////////////////////

  /** No arrival comes after a pop has passed its number. */
  ghost predicate NoneLate(max: int, capacity: nat, ss: seq<State>, es: seq<Event>, ops: seq<Op>, first: nat)
    requires 0 < max && |ops| == |es| < |ss|
  {
    forall k :: 0 <= k < |ops| && ops[k].Arrive? ==>
      NextNumber(first, LedgerAt(max, capacity, ss, es, ops, first, k).out) <= ops[k].n
  }

  /** The numbers of the arrivals that did not find the queue full. */
  ghost function Accepted(capacity: nat, ss: seq<State>, ops: seq<Op>, k: nat): (a: set<nat>)
    requires k <= |ops| < |ss|
  {
    if k == 0 then {}
    else
      Accepted(capacity, ss, ops, k - 1)
      + if ops[k - 1].Arrive? && |ss[k - 1].stock| < capacity then {ops[k - 1].n} else {}
  }

  ghost function Numbers(out: seq<Entry>): (a: set<nat>)
    ensures forall n :: n in a <==> exists j :: 0 <= j < |out| && out[j].n == n
  {
    set j | 0 <= j < |out| :: out[j].n
  }

  /** Accepted frames before the next number have left, the others are in stock; nothing is late. */
  ghost predicate Settled(l: Ledger, accepted: set<nat>, max: int, first: nat)
    requires 0 < max
  {
    var next := NextNumber(first, l.out);
    && (forall i :: i in l.owner ==> !l.owner[i].late && l.owner[i].n in accepted && next <= l.owner[i].n)
    && Punctual(l.out)
    && (forall n :: n in Numbers(l.out) ==> n in accepted && n < next)
    && (forall n :: n in accepted && n < next ==> n in Numbers(l.out))
    && (forall n :: n in accepted && n >= next ==> Residue(n, max) in l.owner && l.owner[Residue(n, max)].n == n)
  }

  lemma NumbersSnoc(out: seq<Entry>, x: Entry)
    ensures Numbers(out + [x]) == Numbers(out) + {x.n}
  {
    var more := out + [x];
    forall n ensures n in Numbers(more) <==> n in Numbers(out) + {x.n} {
      if n in Numbers(out) {
        var j :| 0 <= j < |out| && out[j].n == n;
        assert more[j].n == n;
      }
      assert more[|out|].n == x.n;
    }
  }

  lemma SettledArrival(l: Ledger, s: State, n: nat, accepted: set<nat>, max: int, capacity: nat, first: nat, e: Event)
    requires 0 < max && Settled(l, accepted, max, first) && Ahead(l, s, max, capacity, first)
    requires NextNumber(first, l.out) <= n < NextNumber(first, l.out) + max
    ensures Settled(Advance(l, |s.stock|, Arrive(n), e, max, capacity, first),
                    accepted + (if |s.stock| < capacity then {n} else {}), max, first)
  {
    hide Residue, Numbers, Punctual;
    var next := NextNumber(first, l.out);
    forall m | m in accepted && m >= next && Residue(m, max) == Residue(n, max) ensures m == n {
      ResidueUnique(max, next, m, n);
    }
  }

  lemma SettledPop(l: Ledger, s: State, t: State, i: int, frame: Frame, accepted: set<nat>, max: int, capacity: nat,
                   first: nat, content: nat -> Frame)
    requires Sound(max, capacity, s) && Accounts(l, s.stock, max, content) && Ahead(l, s, max, capacity, first)
    requires Step(max, capacity, s, Popped(i, frame), t) && Settled(l, accepted, max, first)
    ensures i in l.owner && Settled(Ledger(l.owner - {i}, l.out + [l.owner[i]]), accepted, max, first)
  {
    hide Residue, Numbers, Increasing, Distance, Wrap, Step, Sound;
    PopOrder(l, s, t, i, frame, max, capacity, first, content);
    NumbersSnoc(l.out, l.owner[i]);
    IncreasingSnoc(l.out, l.owner[i], first);
    PopLeavesGreater(l, s, t, i, frame, max, capacity, first, content);
  }

  lemma PopLeavesGreater(l: Ledger, s: State, t: State, i: int, frame: Frame, max: int, capacity: nat, first: nat,
                         content: nat -> Frame)
    requires Sound(max, capacity, s) && Accounts(l, s.stock, max, content) && Ahead(l, s, max, capacity, first)
    requires Step(max, capacity, s, Popped(i, frame), t) && i in l.owner && !l.owner[i].late
    ensures forall j :: j in l.owner && j != i && !l.owner[j].late ==> l.owner[i].n < l.owner[j].n
  {
    hide Residue, Distance, Wrap;
    var next := NextNumber(first, l.out);
    DistanceOfNumber(max, s.last, next, l.owner[i].n);
    forall j | j in l.owner && j != i && !l.owner[j].late ensures l.owner[i].n < l.owner[j].n {
      DistanceOfNumber(max, s.last, next, l.owner[j].n);
    }
  }

  lemma {:induction false} RunSettled(max: int, capacity: nat, ss: seq<State>, es: seq<Event>, ops: seq<Op>,
                                      first: nat, content: nat -> Frame, k: nat)
    requires Run(max, capacity, ss, es) && CarriesOut(es, ops, max, content) && k <= |es|
    requires AllNear(max, capacity, ss, es, ops, first) && NoneLate(max, capacity, ss, es, ops, first)
    ensures Settled(LedgerAt(max, capacity, ss, es, ops, first, k), Accepted(capacity, ss, ops, k), max, first)
  {
    hide Residue, Step, Sound, Ahead, Increasing, Punctual, Advance, Accounts, Settled, Numbers, Fetched, PartsOf;
    if k == 0 {
      NothingSettled(max, first);
    } else {
      var l, accepted := LedgerAt(max, capacity, ss, es, ops, first, k - 1), Accepted(capacity, ss, ops, k - 1);
      RunSettled(max, capacity, ss, es, ops, first, content, k - 1);
      assert Punctual(l.out) by {
        SettledIsPunctual(l, accepted, max, first);
      }
      OrderExactly(max, capacity, ss, es, ops, first, content, k - 1);
      RunSound(max, capacity, ss, es, k - 1);
      DeliveredParts(max, capacity, ss, es, ops, first, content, k - 1);
      SettledStep(l, ss[k - 1], ss[k], ops[k - 1], es[k - 1], accepted, max, capacity, first, content);
    }
  }

  lemma SettledStep(l: Ledger, s: State, t: State, op: Op, e: Event, accepted: set<nat>, max: int, capacity: nat,
                    first: nat, content: nat -> Frame)
    requires Sound(max, capacity, s) && Step(max, capacity, s, e, t) && Accounts(l, s.stock, max, content)
    requires if op.Arrive? then e == Pushed(Residue(op.n, max), content(op.n)) else !e.Pushed?
    requires Near(s, op, NextNumber(first, l.out), max, first) && (op.Arrive? ==> NextNumber(first, l.out) <= op.n)
    requires Ahead(l, s, max, capacity, first) && Settled(l, accepted, max, first)
    ensures Settled(Advance(l, |s.stock|, op, e, max, capacity, first),
                    accepted + (if op.Arrive? && |s.stock| < capacity then {op.n} else {}), max, first)
  {
    hide Residue, Step, Sound, Ahead, Accounts, Settled;
    AccountsStep(l, s, t, op, e, max, capacity, first, content);
    match op
    case Arrive(n) => SettledArrival(l, s, n, accepted, max, capacity, first, e);
    case Fetch =>
      assert accepted + {} == accepted;
      if e.Popped? {
        SettledPop(l, s, t, e.index, e.frame, accepted, max, capacity, first, content);
      }
  }

  lemma NothingSettled(max: int, first: nat)
    requires 0 < max
    ensures Settled(Ledger(map[], []), {}, max, first)
  {}

  lemma SettledIsPunctual(l: Ledger, accepted: set<nat>, max: int, first: nat)
    requires 0 < max && Settled(l, accepted, max, first)
    ensures Punctual(l.out)
  {}

  /**
    Delivery with losses: as long as no frame arrives after a pop has passed its number, the frames
    leave in strictly increasing order, each with its own content, and the numbers skipped are exactly
    those that were never accepted; what is accepted and not yet passed is in stock.
   */
  lemma LossyDelivery(max: int, capacity: nat, ss: seq<State>, es: seq<Event>, ops: seq<Op>, first: nat,
                      content: nat -> Frame, k: nat)
    requires Run(max, capacity, ss, es) && CarriesOut(es, ops, max, content) && k <= |es|
    requires AllNear(max, capacity, ss, es, ops, first) && NoneLate(max, capacity, ss, es, ops, first)
    ensures var out, accepted := LedgerAt(max, capacity, ss, es, ops, first, k).out, Accepted(capacity, ss, ops, k);
            && Fetched(es[..k]) == PartsOf(out, max, content)
            && Increasing(out)
            && (forall n :: n in Numbers(out) <==> n in accepted && n < NextNumber(first, out))
            && (forall n :: n in accepted && n >= NextNumber(first, out) ==>
                  Residue(n, max) in ss[k].stock && ss[k].stock[Residue(n, max)] == content(n))
  {
    hide Run, CarriesOut, AllNear, NoneLate, Residue, PartsOf, Increasing, Punctual, Numbers, Ahead, Fetched;
    assert |ss| == |es| + 1 && |es| == |ops| && 0 < max by {
      RunShape(max, capacity, ss, es, ops, content);
    }
    DeliveredParts(max, capacity, ss, es, ops, first, content, k);
    OrderExactly(max, capacity, ss, es, ops, first, content, k);
    RunSettled(max, capacity, ss, es, ops, first, content, k);
  }

  lemma RunShape(max: int, capacity: nat, ss: seq<State>, es: seq<Event>, ops: seq<Op>, content: nat -> Frame)
    requires Run(max, capacity, ss, es) && CarriesOut(es, ops, max, content)
    ensures |ss| == |es| + 1 && |es| == |ops| && 0 < max
  {}

  /**
    With the next frame missing, a pop skips it exactly when the stock is full, and then goes on with the
    least accepted number behind it, however many frames were lost before.
   */
  lemma MissingFrameSkipped(max: int, capacity: nat, ss: seq<State>, es: seq<Event>, ops: seq<Op>, first: nat,
                            content: nat -> Frame, k: nat)
    requires Run(max, capacity, ss, es) && CarriesOut(es, ops, max, content) && k < |es| && ops[k] == Fetch
    requires AllNear(max, capacity, ss, es, ops, first) && NoneLate(max, capacity, ss, es, ops, first)
    requires NextNumber(first, LedgerAt(max, capacity, ss, es, ops, first, k).out) !in Accepted(capacity, ss, ops, k)
    ensures es[k].Popped? <==> 0 < capacity == |ss[k].stock|
    ensures es[k].Popped? ==>
              var l, accepted := LedgerAt(max, capacity, ss, es, ops, first, k), Accepted(capacity, ss, ops, k);
              && es[k].index in l.owner && l.owner[es[k].index].n in accepted
              && (forall n :: n in accepted && n >= NextNumber(first, l.out) ==> n >= l.owner[es[k].index].n)
              && l.owner[es[k].index].n > NextNumber(first, l.out)
  {
    hide Residue, AllNear, NoneLate, Increasing, Punctual, Numbers, LedgerAt, Accepted, Distance, PartsOf, Fetched;
    var l, accepted := LedgerAt(max, capacity, ss, es, ops, first, k), Accepted(capacity, ss, ops, k);
    RunSettled(max, capacity, ss, es, ops, first, content, k);
    OrderExactly(max, capacity, ss, es, ops, first, content, k);
    DeliveredParts(max, capacity, ss, es, ops, first, content, k);
    RunSound(max, capacity, ss, es, k);
    hide Settled, Ahead, Accounts, Step, Sound;
    assert Punctual(l.out) by {
      SettledIsPunctual(l, accepted, max, first);
    }
    SkipStep(l, ss[k], ss[k + 1], es[k], accepted, max, capacity, first, content);
  }

  lemma SkipStep(l: Ledger, s: State, t: State, e: Event, accepted: set<nat>, max: int, capacity: nat, first: nat,
                 content: nat -> Frame)
    requires Sound(max, capacity, s) && Step(max, capacity, s, e, t) && Accounts(l, s.stock, max, content)
    requires Ahead(l, s, max, capacity, first) && Settled(l, accepted, max, first) && !e.Pushed?
    requires NextNumber(first, l.out) !in accepted
    ensures e.Popped? <==> 0 < capacity == |s.stock|
    ensures e.Popped? ==>
              && e.index in l.owner && l.owner[e.index].n in accepted
              && (forall n :: n in accepted && n >= NextNumber(first, l.out) ==> n >= l.owner[e.index].n)
              && l.owner[e.index].n > NextNumber(first, l.out)
  {
    hide Residue, Punctual, Numbers, Distance;
    var next := NextNumber(first, l.out);
    if Residue(next, max) in l.owner {
      ResidueUnique(max, next, l.owner[Residue(next, max)].n, next);
    }
    if e.Popped? {
      PopLeavesGreater(l, s, t, e.index, e.frame, max, capacity, first, content);
    }
  }

  //////////////////////////////////////////////////////////////////////////////
  //
  // Examples of runs
  //
  //////////////////////////////////////////////////////////////////////////////

  /** With room for one frame, every arrival can be fetched at once: the order is that of arrival. */
  lemma {:induction false} ArrivalOrder(max: int, numbers: seq<nat>, content: nat -> Frame)
      returns (ss: seq<State>, es: seq<Event>, ops: seq<Op>)
    requires 0 < max
    ensures Run(max, 1, ss, es) && CarriesOut(es, ops, max, content) && |ops| == 2 * |numbers|
    ensures forall j :: 0 <= j < |numbers| ==> ops[2 * j] == Arrive(numbers[j]) && ops[2 * j + 1] == Fetch
    ensures |ss| == |es| + 1 && ss[|es|].stock == map[] && |Fetched(es)| == |numbers|
    ensures forall j :: 0 <= j < |numbers| ==> Fetched(es)[j] == Part(Residue(numbers[j], max), content(numbers[j]))
  {
    if numbers == [] {
      ss, es, ops := [State(-1, map[], 0, 0)], [], [];
    } else {
      var n := numbers[|numbers| - 1];
      hide Run, CarriesOut, Fetched, Residue;
      ss, es, ops := ArrivalOrder(max, numbers[..|numbers| - 1], content);
      ss, es, ops := OnePair(max, ss, es, ops, n, content);
    }
  }

  /** One frame more arrives and leaves. */
  lemma OnePair(max: int, ss0: seq<State>, es0: seq<Event>, ops0: seq<Op>, n: nat, content: nat -> Frame)
      returns (ss: seq<State>, es: seq<Event>, ops: seq<Op>)
    requires 0 < max && Run(max, 1, ss0, es0) && CarriesOut(es0, ops0, max, content)
    requires |ss0| == |es0| + 1 && ss0[|es0|].stock == map[]
    ensures Run(max, 1, ss, es) && CarriesOut(es, ops, max, content) && ops == ops0 + [Arrive(n), Fetch]
    ensures |ss| == |es| + 1 && ss[|es|].stock == map[]
    ensures Fetched(es) == Fetched(es0) + [Part(Residue(n, max), content(n))]
  {
    RunSound(max, 1, ss0, es0, |es0|);
    hide Run, Fetched, CarriesOut, Residue, Step, Sound, AfterPush;
    var s := ss0[|es0|];
    var e, p := Pushed(Residue(n, max), content(n)), Popped(Residue(n, max), content(n));
    var t := AfterPush(max, 1, s, Residue(n, max), content(n));
    var u := t.(last := Residue(n, max), stock := t.stock - {Residue(n, max)});
    OnlyFrame(max, s, n, content);
    RunGrows(max, 1, ss0, es0, e, t);
    FetchedGrows(es0, e);
    RunGrows(max, 1, ss0 + [t], es0 + [e], p, u);
    FetchedGrows(es0 + [e], p);
    CarriesOnePair(es0, ops0, max, content, n);
    ss, es, ops := ss0 + [t] + [u], es0 + [e] + [p], ops0 + [Arrive(n), Fetch];
  }

  lemma OnlyFrame(max: int, s: State, n: nat, content: nat -> Frame)
    requires 0 < max && Sound(max, 1, s) && s.stock == map[]
    ensures var r := Residue(n, max);
            var t := AfterPush(max, 1, s, r, content(n));
            && Step(max, 1, s, Pushed(r, content(n)), t) && Sound(max, 1, t)
            && Step(max, 1, t, Popped(r, content(n)), t.(last := r, stock := t.stock - {r})) && t.stock - {r} == map[]
  {
    hide Residue, Distance, Wrap, Index;
    ResidueIsIndex(n, max);
    var r := Residue(n, max);
    StepSound(max, 1, s, Pushed(r, content(n)), AfterPush(max, 1, s, r, content(n)));
  }

  lemma CarriesOnePair(es: seq<Event>, ops: seq<Op>, max: int, content: nat -> Frame, n: nat)
    requires 0 < max && CarriesOut(es, ops, max, content)
    ensures CarriesOut(es + [Pushed(Residue(n, max), content(n))] + [Popped(Residue(n, max), content(n))],
                       ops + [Arrive(n), Fetch], max, content)
  {
    hide Residue;
  }

  /** The condition is needed: frame 11 arrives after frame 12 has left, and leaves behind it. */
  lemma LateFrameOutOfOrder(content: nat -> Frame) returns (ss: seq<State>, es: seq<Event>, ops: seq<Op>)
    ensures Run(5000, 1, ss, es) && CarriesOut(es, ops, 5000, content)
    ensures |ops| == 6 && ops[4] == Arrive(11)
    ensures Fetched(es) == [Part(10, content(10)), Part(12, content(12)), Part(11, content(11))]
  {
    hide Run, CarriesOut, Fetched, Residue;
    ss, es, ops := ArrivalOrder(5000, [10, 12, 11], content);
    assert ops[2 * 2] == Arrive([10, 12, 11][2]);
    ResidueOfSmall(10, 5000);
    ResidueOfSmall(11, 5000);
    ResidueOfSmall(12, 5000);
  }
}
