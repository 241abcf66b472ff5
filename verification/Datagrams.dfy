/**
  From the datagrams of an encoder to superframes: frames under their counters, displaced by less than
  the capacity of the jitter buffer.
 */
module Datagrams {
  import opened Arithmetic
  import opened Bytes
  import opened OrderedQueues
  import opened QueueRuns
  import opened Superframes
  import opened SuperframeRuns

  /** What a received datagram turns out to be; only its DAB frame and the frame counter matter here. */
  datatype Datagram = Dab(dfcth: Byte, dfctl: Byte, data: seq<Byte>, ts: int) | Unrecognised

  /** The frame number: the upper five bits of the second counter byte count periods of 250 frames. */
  function FrameNumber(dfcth: Byte, dfctl: Byte): (n: nat)
    ensures n <= 31 * 250 + 255
  {
    Value(dfcth) / 8 * 250 + Value(dfctl)
  }

  /** An encoder that writes count c as DFCTH = c / 250 and DFCTL = c mod 250 is read back, whatever the other bits. */
  lemma FrameNumberBack(c: nat, rest: nat)
    requires c < MAX_QUEUE_SIZE && rest < 8
    ensures FrameNumber(Low(c / 250 * 8 + rest), Low(c % 250)) == c
  {
    hide Low, Value;
    LowValue(c / 250 * 8 + rest);
    LowValue(c % 250);
  }

  /** The pushes that a list of datagrams causes: those of the right size. */
  ghost function PushesOf(ds: seq<Datagram>, size: nat): (es: seq<Event>)
    ensures forall i :: 0 <= i < |es| ==> es[i].Pushed? && |es[i].frame.buf| == size
  {
    if ds == [] then []
    else
      var d := ds[|ds| - 1];
      PushesOf(ds[..|ds| - 1], size)
      + if d.Dab? && |d.data| == size then [Pushed(FrameNumber(d.dfcth, d.dfctl), Frame(d.data, d.ts))] else []
  }

  lemma NothingPushed(size: nat)
    ensures PushesOf([], size) == []
  {}

  lemma PushesAppend(ds: seq<Datagram>, i: nat, size: nat)
    requires i < |ds|
    ensures PushesOf(ds[..i + 1], size) == PushesOf(ds[..i], size) + PushesOf([ds[i]], size)
  {
    assert ds[..i + 1][..i] == ds[..i] && [ds[i]][..0] == [];
  }

  /** The bytes of a list of parts, one after the other. */
  ghost function Payload(parts: seq<Part>): seq<Byte> {
    if parts == [] then [] else Payload(parts[..|parts| - 1]) + parts[|parts| - 1].frame.buf
  }

  lemma NoPayload()
    ensures Payload([]) == []
  {}

  //////////////////////////////////////////////////////////////////////////////
  //
  // What an encoder sends
  //
  //////////////////////////////////////////////////////////////////////////////

  /** A frame under counter c: DFCTH = c / 250 above three other bits, DFCTL = c mod 250. */
  function Encoded(c: nat, rest: nat, frame: Frame): Datagram {
    Dab(Low(c / 250 * 8 + rest), Low(c % 250), frame.buf, frame.ts)
  }

  ghost predicate Encodes(d: Datagram, c: nat, frame: Frame) {
    exists rest: nat :: rest < 8 && d == Encoded(c, rest, frame)
  }

  lemma EncodedNumber(d: Datagram, c: nat, frame: Frame)
    requires c < 5000 && Encodes(d, c, frame)
    ensures d.Dab? && FrameNumber(d.dfcth, d.dfctl) == c && Frame(d.data, d.ts) == frame
  {
    hide Low, FrameNumber;
    var rest: nat :| rest < 8 && d == Encoded(c, rest, frame);
    FrameNumberBack(c, rest);
  }

  /** What one datagram causes: a push under the number that its encoder meant. */
  lemma OneDatagram(ds: seq<Datagram>, d: Datagram, size: nat)
    ensures PushesOf(ds + [d], size) == PushesOf(ds, size) + PushesOf([d], size)
    ensures PushesOf([d], size)
         == if d.Dab? && |d.data| == size then [Pushed(FrameNumber(d.dfcth, d.dfctl), Frame(d.data, d.ts))] else []
    ensures forall c: nat, frame: Frame :: c < 5000 && Encodes(d, c, frame) && |frame.buf| == size ==>
              PushesOf([d], size) == [Pushed(c, frame)]
  {
    hide Encodes, FrameNumber;
    assert [d][..0] == [] && (ds + [d])[..|ds|] == ds;
    forall c: nat, frame: Frame | c < 5000 && Encodes(d, c, frame)
      ensures d.Dab? && FrameNumber(d.dfcth, d.dfctl) == c && Frame(d.data, d.ts) == frame
    {
      EncodedNumber(d, c, frame);
    }
  }

  /**
    The datagrams are the frames with these numbers under the counter n mod 5000, and possibly others
    that are not recognised or have the wrong size.
   */
  ghost predicate Transmits(ds: seq<Datagram>, numbers: seq<nat>, content: nat -> Frame, size: nat) {
    if ds == [] then numbers == []
    else
      var n := |ds| - 1;
      if ds[n].Unrecognised? || |ds[n].data| != size then Transmits(ds[..n], numbers, content, size)
      else
        && numbers != [] && var x := numbers[|numbers| - 1];
           && Encodes(ds[n], x % 5000, content(x)) && Transmits(ds[..n], numbers[..|numbers| - 1], content, size)
  }

  /** The pushes that these frames should cause. */
  function PushesFor(numbers: seq<nat>, content: nat -> Frame): (es: seq<Event>)
    ensures |es| == |numbers|
    ensures forall i :: 0 <= i < |es| ==> es[i] == Pushed(numbers[i] % 5000, content(numbers[i]))
  {
    seq(|numbers|, i requires 0 <= i < |numbers| => Pushed(numbers[i] % 5000, content(numbers[i])))
  }

  /** Datagrams are pushed under the numbers that the encoder meant. */
  lemma {:induction false} TransmittedPushes(ds: seq<Datagram>, numbers: seq<nat>, content: nat -> Frame, size: nat)
    requires Transmits(ds, numbers, content, size)
    ensures PushesOf(ds, size) == PushesFor(numbers, content)
  {
    hide Encodes, FrameNumber;
    if ds != [] {
      var n := |ds| - 1;
      if ds[n].Unrecognised? || |ds[n].data| != size {
        TransmittedPushes(ds[..n], numbers, content, size);
      } else {
        var k := |numbers| - 1;
        TransmittedPushes(ds[..n], numbers[..k], content, size);
        EncodedNumber(ds[n], numbers[k] % 5000, content(numbers[k]));
        assert PushesFor(numbers, content) == PushesFor(numbers[..k], content) + [PushesFor(numbers, content)[k]];
      }
    }
  }

  ghost function NumbersIn(numbers: seq<nat>): (r: set<nat>) {
    set n | n in numbers
  }

  /** The frames from `first` on were sent in order, each once, and arrive displaced by less than the capacity. */
  ghost predicate Displaced(numbers: seq<nat>, first: nat, capacity: nat) {
    forall i :: 0 <= i < |numbers| ==> InWindow(NumbersIn(numbers[..i]), first, capacity, numbers[i])
  }

  //////////////////////////////////////////////////////////////////////////////
  //
  // The run of the queue that they cause
  //
  //////////////////////////////////////////////////////////////////////////////

  function PushedIn(es: seq<Event>): (ps: seq<Event>) {
    if es == [] then []
    else PushedIn(es[..|es| - 1]) + if es[|es| - 1].Pushed? then [es[|es| - 1]] else []
  }

  lemma PushedInGrows(es: seq<Event>, e: Event)
    ensures PushedIn(es + [e]) == PushedIn(es) + if e.Pushed? then [e] else []
  {
    assert (es + [e])[..|es|] == es;
  }

  /** The operations behind the events: the pushes are arrivals of these numbers, all else asks for a frame. */
  ghost function OpsOf(es: seq<Event>, numbers: seq<nat>): (ops: seq<Op>)
    requires |PushedIn(es)| == |numbers|
    ensures |ops| == |es|
  {
    if es == [] then []
    else
      var n := |es| - 1;
      if es[n].Pushed? then
        var k := |numbers| - 1;
        OpsOf(es[..n], numbers[..k]) + [Arrive(numbers[k])]
      else OpsOf(es[..n], numbers) + [Fetch]
  }

  lemma OpsOfLast(es: seq<Event>, numbers: seq<nat>)
    requires es != [] && |PushedIn(es)| == |numbers|
    ensures var n, k := |es| - 1, |numbers| - 1;
            if es[n].Pushed? then
              && k >= 0 && |PushedIn(es[..n])| == k
              && OpsOf(es, numbers) == OpsOf(es[..n], numbers[..k]) + [Arrive(numbers[k])]
            else |PushedIn(es[..n])| == |numbers| && OpsOf(es, numbers) == OpsOf(es[..n], numbers) + [Fetch]
  {}

  lemma {:induction false} OpsCarriedOut(es: seq<Event>, numbers: seq<nat>, first: nat, capacity: nat,
                                         content: nat -> Frame)
    requires PushedIn(es) == PushesFor(numbers, content) && Displaced(numbers, first, capacity)
    ensures CarriesOut(es, OpsOf(es, numbers), 5000, content)
    ensures Reordered(OpsOf(es, numbers), first, capacity)
    ensures Arrived(OpsOf(es, numbers)) == NumbersIn(numbers)
  {
    hide InWindow, OpsOf, Displaced, Reordered, Arrived, NumbersIn, PushedIn, CarriesOut;
    if es == [] {
      NoOps(es, numbers, first, capacity, content);
    } else {
      var n, k := |es| - 1, |numbers| - 1;
      OpsOfLast(es, numbers);
      if es[n].Pushed? {
        PushesButLast(es, numbers, content);
        DisplacedPrefix(numbers, first, capacity);
        OpsCarriedOut(es[..n], numbers[..k], first, capacity, content);
        NumbersGrow(numbers);
        LastOp(OpsOf(es[..n], numbers[..k]), Arrive(numbers[k]), first, capacity);
        LastCarries(es, OpsOf(es[..n], numbers[..k]), Arrive(numbers[k]), content);
      } else {
        NotPushed(es);
        OpsCarriedOut(es[..n], numbers, first, capacity, content);
        LastOp(OpsOf(es[..n], numbers), Fetch, first, capacity);
        LastCarries(es, OpsOf(es[..n], numbers), Fetch, content);
      }
    }
  }

  lemma NoOps(es: seq<Event>, numbers: seq<nat>, first: nat, capacity: nat, content: nat -> Frame)
    requires es == [] && |PushedIn(es)| == |numbers|
    ensures CarriesOut(es, OpsOf(es, numbers), 5000, content)
    ensures Reordered(OpsOf(es, numbers), first, capacity)
    ensures Arrived(OpsOf(es, numbers)) == NumbersIn(numbers)
  {}

  lemma NotPushed(es: seq<Event>)
    requires es != [] && !es[|es| - 1].Pushed?
    ensures PushedIn(es[..|es| - 1]) == PushedIn(es)
  {}

  lemma LastCarries(es: seq<Event>, before: seq<Op>, op: Op, content: nat -> Frame)
    requires es != [] && CarriesOut(es[..|es| - 1], before, 5000, content)
    requires if op.Arrive? then es[|es| - 1] == Pushed(op.n % 5000, content(op.n)) else !es[|es| - 1].Pushed?
    ensures CarriesOut(es, before + [op], 5000, content)
  {
    var n := |es| - 1;
    forall i | 0 <= i < |es| ensures match (before + [op])[i]
                                     case Arrive(x) => es[i] == Pushed(Residue(x, 5000), content(x))
                                     case Fetch => !es[i].Pushed?
    {
      if i < n {
        assert es[..n][i] == es[i];
      }
    }
  }

  lemma PushesButLast(es: seq<Event>, numbers: seq<nat>, content: nat -> Frame)
    requires es != [] && es[|es| - 1].Pushed? && PushedIn(es) == PushesFor(numbers, content)
    ensures numbers != []
    ensures PushedIn(es[..|es| - 1]) == PushesFor(numbers[..|numbers| - 1], content)
    ensures es[|es| - 1] == PushesFor(numbers, content)[|numbers| - 1]
  {
    var all := PushesFor(numbers, content);
    assert PushedIn(es[..|es| - 1]) == all[..|all| - 1];
  }

  lemma DisplacedPrefix(numbers: seq<nat>, first: nat, capacity: nat)
    requires numbers != [] && Displaced(numbers, first, capacity)
    ensures Displaced(numbers[..|numbers| - 1], first, capacity)
    ensures InWindow(NumbersIn(numbers[..|numbers| - 1]), first, capacity, numbers[|numbers| - 1])
  {
    hide InWindow;
    var less := numbers[..|numbers| - 1];
    forall i | 0 <= i < |less| ensures InWindow(NumbersIn(less[..i]), first, capacity, less[i]) {
      assert less[..i] == numbers[..i];
    }
  }

  lemma NumbersGrow(numbers: seq<nat>)
    requires numbers != []
    ensures NumbersIn(numbers) == NumbersIn(numbers[..|numbers| - 1]) + {numbers[|numbers| - 1]}
  {
    assert numbers == numbers[..|numbers| - 1] + [numbers[|numbers| - 1]];
  }

  lemma LastOp(before: seq<Op>, op: Op, first: nat, capacity: nat)
    requires Reordered(before, first, capacity)
    requires op.Arrive? ==> InWindow(Arrived(before), first, capacity, op.n)
    ensures Reordered(before + [op], first, capacity)
    ensures Arrived(before + [op]) == if op.Arrive? then Arrived(before) + {op.n} else Arrived(before)
  {
    hide InWindow;
    var ops := before + [op];
    assert ops[..|before|] == before;
    forall i | 0 <= i < |ops| && ops[i].Arrive? ensures InWindow(Arrived(ops[..i]), first, capacity, ops[i].n) {
      if i < |before| {
        assert ops[..i] == before[..i];
      }
    }
  }

  //////////////////////////////////////////////////////////////////////////////
  //
  // The superframes that the encoder meant
  //
  //////////////////////////////////////////////////////////////////////////////

  /** The number of the first frame of superframe k: the first superframe begins at a number divisible by 5. */
  function StartOf(first: nat, k: nat): nat {
    first + Skipped(first) + 5 * k
  }

  /** All frames from the first up to the end of superframe k have arrived. */
  ghost predicate Complete(numbers: seq<nat>, first: nat, k: nat) {
    forall n: nat :: first <= n < StartOf(first, k) + 5 ==> n in numbers
  }

  /** The data of superframe k: those of its five frames. */
  function FiveFrames(content: nat -> Frame, start: nat): seq<Byte> {
    content(start).buf + content(start + 1).buf + content(start + 2).buf + content(start + 3).buf
    + content(start + 4).buf
  }

  lemma FivePayload(f: Superframe, start: nat, content: nat -> Frame)
    requires |f.parts| == 5 && forall j :: 0 <= j < 5 ==> f.parts[j].frame == content(start + j)
    ensures Payload(f.parts) == FiveFrames(content, start)
  {
    var p := f.parts;
    assert p == [p[0], p[1], p[2], p[3], p[4]];
    NoPayload();
    PayloadSnoc([], p[0]);
    assert [] + [p[0]] == [p[0]] && [p[0]] + [p[1]] == [p[0], p[1]] && [p[0], p[1]] + [p[2]] == [p[0], p[1], p[2]];
    assert [p[0], p[1], p[2]] + [p[3]] == [p[0], p[1], p[2], p[3]] && [p[0], p[1], p[2], p[3]] + [p[4]] == p;
    assert [] + p[0].frame.buf == p[0].frame.buf;
    PayloadSnoc([p[0]], p[1]);
    PayloadSnoc([p[0], p[1]], p[2]);
    PayloadSnoc([p[0], p[1], p[2]], p[3]);
    PayloadSnoc([p[0], p[1], p[2], p[3]], p[4]);
  }

  lemma PayloadSnoc(ps: seq<Part>, p: Part)
    ensures Payload(ps + [p]) == Payload(ps) + p.frame.buf
  {
    assert (ps + [p])[..|ps|] == ps;
  }

  /** Once the next frame has arrived, a pop finds it. */
  lemma NextCanPop(max: int, capacity: nat, s: State, arrived: set<nat>, first: nat, next: nat, content: nat -> Frame)
    requires 0 < max && Sound(max, capacity, s) && Tracks(s, arrived, first, next, max, content)
    requires next in arrived
    ensures CanPop(max, capacity, s)
  {
    hide Residue, Wrap;
    assert next in Pending(arrived, next);
  }

  /** What the queue has delivered of the frames that arrived. */
  lemma EncoderRun(capacity: nat, ss: seq<State>, es: seq<Event>, numbers: seq<nat>, first: nat, content: nat -> Frame)
    requires Run(5000, capacity, ss, es) && |ss| == |es| + 1 && ss[|es|].overruns == 0 && 2 * capacity <= 5000
    requires PushedIn(es) == PushesFor(numbers, content) && Displaced(numbers, first, capacity)
    ensures forall n: nat :: first <= n < first + Pops(es) ==> n in numbers
    ensures es != [] && es[|es| - 1].Nothing? ==> first + Pops(es) !in numbers
    ensures var f, done := Skipped(first), Assemble(Fetched(es)).done;
            && |done| == (if Pops(es) < f then 0 else (Pops(es) - f) / 5)
            && forall k :: 0 <= k < |done| ==> IsDelivery(done[k], first + f, k, content)
  {
    hide Run, Sound, Step, CanPop, Reordered, CarriesOut, Window, Residue, Assemble, Skipped, IsDelivery, InOrder,
         Tracks, Displaced, Fetched;
    var ops := OpsOf(es, numbers);
    OpsCarriedOut(es, numbers, first, capacity, content);
    ReorderTolerance(5000, capacity, ss, es, ops, first, content);
    ReorderedDelivery(capacity, ss, es, ops, first, content);
    DeliveredArrived(ss[|es|], Arrived(ops), first, first + Pops(es), content);
    forall n: nat | first <= n < first + Pops(es) ensures n in numbers {
      assert n in NumbersIn(numbers);
    }
    if es != [] && es[|es| - 1].Nothing? {
      RunStep(5000, capacity, ss, es);
      LastNothing(capacity, ss[|es| - 1], ss[|es|]);
      if first + Pops(es) in numbers {
        NextCanPop(5000, capacity, ss[|es|], Arrived(ops), first, first + Pops(es), content);
      }
    }
  }

  lemma DeliveredArrived(s: State, arrived: set<nat>, first: nat, next: nat, content: nat -> Frame)
    requires Tracks(s, arrived, first, next, 5000, content)
    ensures forall n: nat :: first <= n < next ==> n in arrived
  {}

  lemma LastNothing(capacity: nat, s: State, t: State)
    requires Sound(5000, capacity, s) && Step(5000, capacity, s, Nothing, t)
    ensures t == s && !CanPop(5000, capacity, t)
  {}

  /**
    Superframe number d is handed out exactly when its frames and all before them have arrived, with their
    data and 120 ms after the one before.
   */
  ghost predicate SentAs(numbers: seq<nat>, first: nat, content: nat -> Frame, d: nat, nbBytes: nat, out: seq<Byte>,
                         ts: int)
  {
    && (nbBytes > 0 <==> Complete(numbers, first, d))
    && (nbBytes > 0 ==>
          out == FiveFrames(content, StartOf(first, d)) && ts == content(StartOf(first, 0)).ts + 96 + 120 * d)
  }

  /**
    What a reader with room for a superframe gets, for every encoder whose frames are displaced by less
    than the capacity of a queue that never overran.
   */
  ghost predicate AsSent(ds: seq<Datagram>, size: nat, capacity: nat, d: nat, nbBytes: nat, out: seq<Byte>, ts: int) {
    forall numbers: seq<nat>, first: nat, content: nat -> Frame ::
      Transmits(ds, numbers, content, size) && Displaced(numbers, first, capacity) ==>
        SentAs(numbers, first, content, d, nbBytes, out, ts)
  }

  lemma CompleteExactly(numbers: seq<nat>, first: nat, d: nat, next: nat)
    requires first <= next && forall n: nat :: first <= n < next ==> n in numbers
    requires next >= StartOf(first, d) + 5 || next !in numbers
    ensures Complete(numbers, first, d) <==> next >= StartOf(first, d) + 5
  {
    hide StartOf;
  }

  lemma DeliveryFrames(f: Superframe, first: nat, d: nat, content: nat -> Frame)
    requires IsDelivery(f, first + Skipped(first), d, content)
    ensures Payload(f.parts) == FiveFrames(content, StartOf(first, d))
    ensures f.ts == content(StartOf(first, 0)).ts + 96 + 120 * d
  {
    hide Payload, FiveFrames, Skipped;
    FivePayload(f, StartOf(first, d), content);
  }

  lemma SuperframeAsSent(done: seq<Superframe>, next: nat, numbers: seq<nat>, first: nat, content: nat -> Frame,
                         d: nat, nbBytes: nat, out: seq<Byte>, ts: int)
    requires first <= next && forall n: nat :: first <= n < next ==> n in numbers
    requires forall k :: 0 <= k < |done| ==> IsDelivery(done[k], first + Skipped(first), k, content)
    requires if nbBytes > 0 then |done| == d + 1 && out == Payload(done[d].parts) && ts == done[d].ts
             else |done| == d && next !in numbers
    requires nbBytes > 0 <==> next >= StartOf(first, d) + 5
    ensures SentAs(numbers, first, content, d, nbBytes, out, ts)
  {
    hide Payload, FiveFrames, Skipped, StartOf, Complete, IsDelivery;
    CompleteExactly(numbers, first, d, next);
    if nbBytes > 0 {
      DeliveryFrames(done[d], first, d, content);
    }
  }

  lemma DoneBounds(pops: nat, skipped: nat, count: nat, d: nat)
    requires count == if pops < skipped then 0 else (pops - skipped) / 5
    requires count == d || count == d + 1
    ensures count == d + 1 <==> pops >= skipped + 5 * d + 5
  {}

  /** Superframe number d is handed out, or everything that can be popped has been and it is not finished. */
  lemma DeliveredAsSent(ds: seq<Datagram>, size: nat, capacity: nat, ss: seq<State>, es: seq<Event>, d: nat,
                        nbBytes: nat, out: seq<Byte>, ts: int)
    requires Run(5000, capacity, ss, es) && |ss| == |es| + 1 && ss[|es|].overruns == 0 && 2 * capacity <= 5000
    requires PushedIn(es) == PushesOf(ds, size)
    requires var done := Assemble(Fetched(es)).done;
             if nbBytes > 0 then |done| == d + 1 && out == Payload(done[d].parts) && ts == done[d].ts
             else |done| == d && es != [] && es[|es| - 1].Nothing?
    ensures AsSent(ds, size, capacity, d, nbBytes, out, ts)
  {
    hide Run, Transmits, Displaced, Assemble, Fetched, Payload, Skipped, PushedIn, PushesOf, SentAs, IsDelivery, Pops;
    forall numbers: seq<nat>, first: nat, content: nat -> Frame
      | Transmits(ds, numbers, content, size) && Displaced(numbers, first, capacity)
      ensures SentAs(numbers, first, content, d, nbBytes, out, ts)
    {
      TransmittedPushes(ds, numbers, content, size);
      EncoderRun(capacity, ss, es, numbers, first, content);
      DoneBounds(Pops(es), Skipped(first), |Assemble(Fetched(es)).done|, d);
      SuperframeAsSent(Assemble(Fetched(es)).done, first + Pops(es), numbers, first, content, d, nbBytes, out, ts);
    }
  }
}
