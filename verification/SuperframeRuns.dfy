/** Superframes out of whole runs of the jitter buffer: without losses, with losses, and with jumps of the index. */
module SuperframeRuns {
  import opened Arithmetic
  import opened OrderedQueues
  import opened QueueRuns
  import opened LossyRuns
  import opened Superframes

  //////////////////////////////////////////////////////////////////////////////
  //
  // Without losses
  //
  //////////////////////////////////////////////////////////////////////////////

  lemma {:induction false} InOrderContiguous(first: nat, count: nat, content: nat -> Frame)
    ensures Contiguous(InOrder(first, count, MAX_QUEUE_SIZE, content))
  {
    hide Residue, Wrap;
    var stream := InOrder(first, count, MAX_QUEUE_SIZE, content);
    forall i | 0 <= i < |stream| - 1 ensures stream[i + 1].index == Wrap(MAX_QUEUE_SIZE, stream[i].index + 1) {
      NextResidue(first + i, MAX_QUEUE_SIZE);
    }
  }

  /** How many frames precede the first whose number is divisible by 5. */
  function Skipped(first: nat): (f: nat)
    ensures f < 5
  {
    (5 - first % 5) % 5
  }

  lemma SkippedToAligned(first: nat)
    ensures (first + Skipped(first)) % 5 == 0
  {
    var q, r := first / 5, first % 5;
    if r == 0 {
      DivModUnique(first + Skipped(first), 5, q, 0);
    } else {
      DivModUnique(first + Skipped(first), 5, q + 1, 0);
    }
  }

  /** Superframe k of a delivery that starts at frame number start: five consecutive frames and their time. */
  ghost predicate IsDelivery(f: Superframe, start: nat, k: nat, content: nat -> Frame) {
    && |f.parts| == 5
    && (forall j :: 0 <= j < 5 ==> f.parts[j].frame == content(start + 5 * k + j))
    && f.ts == content(start).ts + 96 + 120 * k
  }

  /**
    End to end: frames displaced by less than the capacity of a queue that never overran leave as the
    superframes that the encoder meant, from its first frame number divisible by 5 on, each once, in
    order and 120 ms apart.
   */
  lemma ReorderedDelivery(capacity: nat, ss: seq<State>, es: seq<Event>, ops: seq<Op>, first: nat,
                          content: nat -> Frame)
    requires Run(MAX_QUEUE_SIZE, capacity, ss, es) && 2 * capacity <= MAX_QUEUE_SIZE
    requires CarriesOut(es, ops, MAX_QUEUE_SIZE, content) && Reordered(ops, first, capacity)
    requires |ss| == |es| + 1 && ss[|es|].overruns == 0
    ensures var f, done := Skipped(first), Assemble(Fetched(es)).done;
            && (first + f) % 5 == 0
            && |done| == (if Pops(es) < f then 0 else (Pops(es) - f) / 5)
            && forall k :: 0 <= k < |done| ==> IsDelivery(done[k], first + f, k, content)
  {
    hide Run, CarriesOut, Reordered, Tracks, Window, Contiguous, Assemble, Residue, InOrder, IsDelivery,
         FirstAligned, Skipped;
    ReorderTolerance(MAX_QUEUE_SIZE, capacity, ss, es, ops, first, content);
    InOrderContiguous(first, Pops(es), content);
    InOrderDelivery(first, Pops(es), content);
    SkippedToAligned(first);
  }

  /** Superframes of frames in order. */
  lemma InOrderDelivery(first: nat, count: nat, content: nat -> Frame)
    requires Contiguous(InOrder(first, count, MAX_QUEUE_SIZE, content))
    ensures var f, done := Skipped(first), Assemble(InOrder(first, count, MAX_QUEUE_SIZE, content)).done;
            && |done| == (if count < f then 0 else (count - f) / 5)
            && forall k :: 0 <= k < |done| ==> IsDelivery(done[k], first + f, k, content)
  {
    hide Contiguous, Assemble, Residue, FirstAligned, Skipped, InOrder, IsDelivery;
    var stream, f := InOrder(first, count, MAX_QUEUE_SIZE, content), Skipped(first);
    if count > 0 {
      FirstIs(stream, first);
    }
    if f < count {
      GapFreeStream(stream);
      var done := Assemble(stream).done;
      forall k | 0 <= k < |done| ensures IsDelivery(done[k], first + f, k, content) {
        SliceDelivery(first, count, content, f, k, done[k]);
      }
    } else {
      ShortStream(stream);
    }
  }

  lemma SliceDelivery(first: nat, count: nat, content: nat -> Frame, f: nat, k: nat, superframe: Superframe)
    requires f + 5 * k + 5 <= count
    requires superframe.parts == InOrder(first, count, MAX_QUEUE_SIZE, content)[f + 5 * k..f + 5 * k + 5]
    requires superframe.ts == content(first + f).ts + 96 + 120 * k
    ensures IsDelivery(superframe, first + f, k, content)
  {
    hide Residue, InOrder;
    var stream := InOrder(first, count, MAX_QUEUE_SIZE, content);
    forall j | 0 <= j < 5 ensures superframe.parts[j].frame == content(first + f + 5 * k + j) {
      assert superframe.parts[j] == stream[f + 5 * k + j];
      assert first + (f + 5 * k + j) == first + f + 5 * k + j;
    }
  }

  lemma FirstIs(stream: seq<Part>, first: nat)
    requires stream != [] && stream[0].index == Residue(first, MAX_QUEUE_SIZE)
    ensures FirstAligned(stream) == Skipped(first)
  {
    FirstOfStream(first);
  }

  lemma FirstOfStream(first: nat)
    ensures Residue(first, MAX_QUEUE_SIZE) % 5 == first % 5
  {}

  lemma ShortStream(stream: seq<Part>)
    requires Contiguous(stream) && (stream == [] || |stream| <= FirstAligned(stream))
    ensures Assemble(stream).done == []
  {
    hide Contiguous;
    assert stream[..|stream|] == stream;
    if stream != [] {
      ContiguousChopped(stream, |stream|);
    }
  }

  //////////////////////////////////////////////////////////////////////////////
  //
  // With losses
  //
  //////////////////////////////////////////////////////////////////////////////

  lemma Ordered(out: seq<Entry>, i: nat, j: nat)
    requires Increasing(out) && i < j < |out|
    ensures out[i].n < out[j].n
  {}

  /** In an increasing list, n + 1 stands right behind n. */
  lemma NextInOrder(out: seq<Entry>, p: nat, n: nat)
    requires Increasing(out) && p < |out| && out[p].n == n && n + 1 in Numbers(out)
    ensures p + 1 < |out| && out[p + 1].n == n + 1
  {
    hide Numbers, Increasing;
    var q := PositionOf(out, n + 1);
    if q < p {
      Ordered(out, q, p);
    }
    if q > p + 1 {
      Ordered(out, p, p + 1);
      Ordered(out, p + 1, q);
    }
  }

  /** Consecutive numbers from start on. */
  ghost predicate IsBlock(b: seq<Entry>, start: nat) {
    forall j :: 0 <= j < |b| ==> b[j].n == start + j
  }

  /** A block of consecutive numbers stands together. */
  lemma {:induction false} BlockInOrder(out: seq<Entry>, start: nat, count: nat) returns (p: nat)
    requires Increasing(out) && count > 0
    requires forall n :: start <= n < start + count ==> n in Numbers(out)
    ensures p + count <= |out| && IsBlock(out[p..p + count], start)
  {
    hide Numbers, Increasing;
    if count == 1 {
      p := PositionOf(out, start);
    } else {
      p := BlockInOrder(out, start, count - 1);
      assert out[p..p + (count - 1)][count - 2] == out[p + (count - 2)];
      NextInOrder(out, p + (count - 2), start + (count - 2));
      assert out[p..p + count] == out[p..p + (count - 1)] + [out[p + (count - 1)]];
    }
  }

  lemma PositionOf(out: seq<Entry>, n: nat) returns (p: nat)
    requires n in Numbers(out)
    ensures p < |out| && out[p].n == n
  {
    p :| p < |out| && out[p].n == n;
  }

  /** The parts carry the frames from number start on. */
  ghost predicate Carry(ps: seq<Part>, start: nat, content: nat -> Frame) {
    forall j :: 0 <= j < |ps| ==> ps[j].frame == content(start + j)
  }

  /** The parts of five consecutive frames have the residues 0 to 4. */
  lemma BlockPhased(out: seq<Entry>, p: nat, start: nat, content: nat -> Frame)
    requires p + 5 <= |out| && start % 5 == 0 && IsBlock(out[p..p + 5], start)
    ensures Phased(PartsOf(out, MAX_QUEUE_SIZE, content)[p..p + 5])
    ensures Carry(PartsOf(out, MAX_QUEUE_SIZE, content)[p..p + 5], start, content)
  {
    hide Residue, PartsOf;
    var five, block := PartsOf(out, MAX_QUEUE_SIZE, content)[p..p + 5], out[p..p + 5];
    forall j | 0 <= j < 5 ensures five[j].index % 5 == j && five[j].frame == content(start + j) {
      assert block[j] == out[p + j] && five[j] == PartsOf(out, MAX_QUEUE_SIZE, content)[p + j];
      ResidueModFive(start + j);
      PhaseOf(start, j);
    }
  }

  lemma PhaseOf(start: nat, j: nat)
    requires start % 5 == 0 && j < 5
    ensures (start + j) % 5 == j
  {}

  lemma ResidueModFive(n: nat)
    ensures Residue(n, MAX_QUEUE_SIZE) % 5 == n % 5
  {}

  /**
    Recovery from losses: whatever was lost before, once ten consecutive frames from a number divisible
    by 5 on have been delivered, the second five of them are a superframe with their own contents.
   */
  lemma RecoveryAfterLoss(capacity: nat, ss: seq<State>, es: seq<Event>, ops: seq<Op>, first: nat,
                          content: nat -> Frame, start: nat)
      returns (k: nat)
    requires Run(MAX_QUEUE_SIZE, capacity, ss, es) && CarriesOut(es, ops, MAX_QUEUE_SIZE, content)
    requires AllNear(MAX_QUEUE_SIZE, capacity, ss, es, ops, first)
             && NoneLate(MAX_QUEUE_SIZE, capacity, ss, es, ops, first)
    requires start % 5 == 0
    requires forall n :: start <= n < start + 10 ==> n in Accepted(capacity, ss, ops, |ops|)
    requires start + 10 <= NextNumber(first, LedgerAt(MAX_QUEUE_SIZE, capacity, ss, es, ops, first, |ops|).out)
    ensures k < |Assemble(Fetched(es)).done| && |Assemble(Fetched(es)).done[k].parts| == 5
    ensures Carry(Assemble(Fetched(es)).done[k].parts, start + 5, content)
  {
    var out := LedgerAt(MAX_QUEUE_SIZE, capacity, ss, es, ops, first, |ops|).out;
    LossyDelivery(MAX_QUEUE_SIZE, capacity, ss, es, ops, first, content, |ops|);
    assert es[..|ops|] == es;
    hide Run, CarriesOut, AllNear, NoneLate, Accepted, LedgerAt, Fetched, PartsOf, Residue, Numbers, Increasing,
         Assemble;
    var p := BlockInOrder(out, start, 10);
    k := BlockBecomesSuperframe(out, p, start, content);
  }

  lemma BlockBecomesSuperframe(out: seq<Entry>, p: nat, start: nat, content: nat -> Frame) returns (k: nat)
    requires p + 10 <= |out| && start % 5 == 0 && IsBlock(out[p..p + 10], start)
    ensures var done := Assemble(PartsOf(out, MAX_QUEUE_SIZE, content)).done;
            k < |done| && |done[k].parts| == 5 && Carry(done[k].parts, start + 5, content)
  {
    hide PartsOf, Residue, Assemble, Phased, Carry;
    var stream := PartsOf(out, MAX_QUEUE_SIZE, content);
    assert out[p..p + 5] == out[p..p + 10][..5] && out[p + 5..p + 10] == out[p..p + 10][5..];
    BlockPhased(out, p, start, content);
    BlockPhased(out, p + 5, start + 5, content);
    FivePhasedParts(stream, p);
    FiveMakeSuperframe(stream, p + 5);
    DonePrefix(stream, p + 10, |stream|);
    assert stream[..|stream|] == stream;
    k := |Assemble(stream[..p + 10]).done| - 1;
  }

  //////////////////////////////////////////////////////////////////////////////
  //
  // Jumps of the index
  //
  //////////////////////////////////////////////////////////////////////////////

  /** The event of pop number q. */
  ghost function PopAt(es: seq<Event>, q: nat): (r: nat)
    requires q < Pops(es)
    ensures r < |es| && es[r].Popped? && Pops(es[..r]) == q && Fetched(es)[q] == Part(es[r].index, es[r].frame)
  {
    var n := |es| - 1;
    if q < Pops(es[..n]) then
      var r := PopAt(es[..n], q);
      assert es[..n][..r] == es[..r];
      r
    else n
  }

  /** The queue remembers the index popped last. */
  lemma {:induction false} LastIsFetched(max: int, capacity: nat, ss: seq<State>, es: seq<Event>, n: nat)
    requires Run(max, capacity, ss, es) && n <= |es| && Pops(es[..n]) > 0
    ensures ss[n].last == Fetched(es[..n])[Pops(es[..n]) - 1].index && ss[n].last != -1
  {
    hide Wrap, Index, Distance;
    RunSound(max, capacity, ss, es, n - 1);
    assert es[..n][..n - 1] == es[..n - 1];
    if !es[n - 1].Popped? {
      LastIsFetched(max, capacity, ss, es, n - 1);
    }
  }

  lemma {:induction false} FetchedPrefix(es: seq<Event>, n: nat)
    requires n <= |es|
    ensures Fetched(es[..n]) <= Fetched(es)
  {
    if n < |es| {
      FetchedPrefix(es[..|es| - 1], n);
      assert es[..|es| - 1][..n] == es[..n];
    } else {
      assert es[..n] == es;
    }
  }

  /** A pop follows the previous one exactly when the successor was in stock. */
  lemma FollowsIffInStock(capacity: nat, ss: seq<State>, es: seq<Event>, n: nat)
    requires Run(MAX_QUEUE_SIZE, capacity, ss, es) && 0 < n < Pops(es)
    ensures var r := PopAt(es, n);
            && r < |ss| && 0 <= ss[r].last < MAX_QUEUE_SIZE
            && (Follows(Fetched(es), n) <==> Successor(ss[r].last) in ss[r].stock)
  {
    hide Distance;
    var r := PopAt(es, n);
    RunSound(MAX_QUEUE_SIZE, capacity, ss, es, r);
    assert Step(MAX_QUEUE_SIZE, capacity, ss[r], es[r], ss[r + 1]);
    LastIsFetched(MAX_QUEUE_SIZE, capacity, ss, es, r);
    FetchedPrefix(es, r);
    WrapIs(MAX_QUEUE_SIZE, ss[r].last + 1);
    var next := Successor(ss[r].last);
    DistanceIs(MAX_QUEUE_SIZE, ss[r].last, 0, next);
    DistanceIs(MAX_QUEUE_SIZE, ss[r].last, 0, es[r].index);
  }

  /**
    When a superframe is contiguous: its five indexes are successive if and only if at each of its last
    four pops the successor was in stock, which is also when no sequence error is reported for it.
   */
  lemma SuperframeContinuity(capacity: nat, ss: seq<State>, es: seq<Event>, k: nat)
    requires Run(MAX_QUEUE_SIZE, capacity, ss, es) && k < |Assemble(Fetched(es)).done|
    ensures var at := Assemble(Fetched(es)).done[k].at;
            && 0 <= at <= Pops(es) - 5 && |ss| == |es| + 1
            && (forall n: nat :: at < n < at + 5 ==>
                  && (Follows(Fetched(es), n) <==> Successor(ss[PopAt(es, n)].last) in ss[PopAt(es, n)].stock)
                  && (Follows(Fetched(es), n) <==> !SequenceError(Fetched(es), n)))
  {
    hide Run, Assemble, Fetched, Successor, Follows, SequenceError;
    RunStart(MAX_QUEUE_SIZE, capacity, ss, es);
    FiveConsecutiveParts(Fetched(es), k);
    var at := Assemble(Fetched(es)).done[k].at;
    forall n: nat | at < n < at + 5
      ensures PopAt(es, n) < |ss|
      ensures Follows(Fetched(es), n) <==> Successor(ss[PopAt(es, n)].last) in ss[PopAt(es, n)].stock
      ensures Follows(Fetched(es), n) <==> !SequenceError(Fetched(es), n)
    {
      FollowsIffInStock(capacity, ss, es, n);
      ErrorIffJump(Fetched(es), k, n);
    }
  }

  /** Contiguity is not required: frames 0, 6, 12, 18, 24 leave a queue and are a superframe. */
  lemma ContiguityNotRequired(content: nat -> Frame) returns (ss: seq<State>, es: seq<Event>)
    ensures Run(MAX_QUEUE_SIZE, 1, ss, es) && |Fetched(es)| == 5
    ensures forall j :: 0 <= j < 5 ==> Fetched(es)[j] == Part(6 * j, content(6 * j))
    ensures |Assemble(Fetched(es)).done| == 1 && Assemble(Fetched(es)).done[0].parts == Fetched(es)
  {
    hide Run, Fetched, Residue, CarriesOut, Assemble;
    var numbers := [0, 6, 12, 18, 24];
    var ops;
    ss, es, ops := ArrivalOrder(MAX_QUEUE_SIZE, numbers, content);
    forall j | 0 <= j < 5 ensures Fetched(es)[j] == Part(6 * j, content(6 * j)) {
      assert numbers[j] == 6 * j;
      ResidueOfSmall(6 * j, MAX_QUEUE_SIZE);
    }
    var stream := Fetched(es);
    assert stream[0..5] == stream && stream[..0] == [] && stream[..5] == stream;
    NothingAssembled();
    FiveMakeSuperframe(stream, 0);
  }
}
