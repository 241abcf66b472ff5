/** From the parts that leave the jitter buffer to DAB+ superframes of five parts. */
module Superframes {
  import opened OrderedQueues

  const MAX_QUEUE_SIZE := 5000
  const PART_MS := 24

  /** The superframe under construction; `zero` is the capture time counted on from the aligning part. */
  datatype Assembly = Assembly(aligned: bool, parts: seq<Part>, zero: int, expected: int)

  const UNALIGNED := Assembly(false, [], 0, 0)

  /** A part is appended, makes the alignment, is ignored, or resets the alignment. */
  function Accept(a: Assembly, p: Part): (b: Assembly)
    ensures |b.parts| <= |a.parts| + 1 && (|b.parts| > |a.parts| ==> b.aligned)
  {
    if !a.aligned then
      if p.index % 5 == 0 then Assembly(true, a.parts + [p], p.frame.ts, (p.index + 1) % MAX_QUEUE_SIZE) else a
    else if p.index % 5 == |a.parts| then
      Assembly(true, a.parts + [p], a.zero + PART_MS, (p.index + 1) % MAX_QUEUE_SIZE)
    else
      Assembly(false, [], a.zero, 0)
  }

  /** A finished superframe: its parts, its time, and where in the stream of parts it begins. */
  datatype Superframe = Superframe(parts: seq<Part>, ts: int, at: int)

  datatype Progress = Progress(assembly: Assembly, done: seq<Superframe>, discarded: nat)

  /** The superframes made of a stream of parts. */
  function Assemble(stream: seq<Part>): Progress {
    if stream == [] then Progress(UNALIGNED, [], 0)
    else
      var n := |stream| - 1;
      Next(Assemble(stream[..n]), stream[n], n)
  }

  /** Part number n arrives; five parts are a superframe. */
  function Next(o: Progress, p: Part, n: nat): Progress {
    var a := Accept(o.assembly, p);
    if |a.parts| == 5 then
      Progress(a.(parts := []), o.done + [Superframe(a.parts, a.zero, n - 4)], o.discarded)
    else
      Progress(a, o.done, o.discarded + |o.assembly.parts| + 1 - |a.parts|)
  }

  //////////////////////////////////////////////////////////////////////////////
  //
  // What a superframe is made of
  //
  //////////////////////////////////////////////////////////////////////////////

  ghost predicate Phased(parts: seq<Part>) {
    forall j :: 0 <= j < |parts| ==> parts[j].index % 5 == j
  }

  /** Five parts in a row, with the residues 0 to 4. */
  ghost predicate IsSuperframe(stream: seq<Part>, n: nat, f: Superframe)
    requires n <= |stream|
  {
    && 0 <= f.at <= n - 5
    && f.parts == stream[f.at..f.at + 5]
    && Phased(f.parts)
  }

  /** The time given to the part at position `at`: counted on behind a superframe, its capture time otherwise. */
  ghost function StartTime(stream: seq<Part>, before: seq<Superframe>, at: int): int
    requires 0 <= at < |stream|
  {
    if before != [] && Last(before).at + 5 == at then Last(before).ts + PART_MS else stream[at].frame.ts
  }

  ghost function Last(done: seq<Superframe>): Superframe
    requires done != []
  {
    done[|done| - 1]
  }

  ghost predicate DoneWell(stream: seq<Part>, n: nat, done: seq<Superframe>)
    requires n <= |stream|
  {
    && (forall k :: 0 <= k < |done| ==> IsSuperframe(stream, n, done[k]))
    && (forall k :: 0 <= k < |done| - 1 ==> done[k].at + 5 <= done[k + 1].at)
    && (forall k :: 0 <= k < |done| ==> done[k].ts == StartTime(stream, done[..k], done[k].at) + 4 * PART_MS)
  }

  ghost predicate AssemblyWell(stream: seq<Part>, n: nat, done: seq<Superframe>, a: Assembly)
    requires n <= |stream|
  {
    var begin := n - |a.parts|;
    && |a.parts| < 5 && 0 <= begin
    && a.parts == stream[begin..n]
    && Phased(a.parts)
    && (done != [] ==> Last(done).at + 5 <= begin)
    && (!a.aligned ==> a.parts == [] && (done != [] ==> Last(done).at + 5 < begin))
    && (a.aligned && a.parts == [] ==> done != [] && Last(done).at + 5 == begin && a.zero == Last(done).ts)
    && (a.parts != [] ==> a.zero == StartTime(stream, done, begin) + PART_MS * (|a.parts| - 1))
  }

  /** What holds after n parts of the stream. */
  ghost predicate Well(stream: seq<Part>, n: nat, o: Progress)
    requires n <= |stream|
  {
    && AssemblyWell(stream, n, o.done, o.assembly)
    && DoneWell(stream, n, o.done)
    && n == 5 * |o.done| + |o.assembly.parts| + o.discarded
  }

  lemma NextWell(stream: seq<Part>, n: nat, o: Progress)
    requires n < |stream| && Well(stream, n, o)
    ensures Well(stream, n + 1, Next(o, stream[n], n))
  {
    hide DoneWell, StartTime;
    var a := Accept(o.assembly, stream[n]);
    NextParts(stream, n, o.done, o.assembly);
    if |a.parts| == 5 {
      DoneGrows(stream, n, o.done, Superframe(a.parts, a.zero, n - 4));
    } else {
      DoneStays(stream, n, o.done);
    }
  }

  /** One part on: either the assembly is still short of five parts, or the five are a superframe. */
  lemma NextParts(stream: seq<Part>, n: nat, done: seq<Superframe>, a: Assembly)
    requires n < |stream| && AssemblyWell(stream, n, done, a)
    ensures var b := Accept(a, stream[n]);
            if |b.parts| < 5 then AssemblyWell(stream, n + 1, done, b)
            else
              && |b.parts| == 5 && b.aligned
              && IsSuperframe(stream, n + 1, Superframe(b.parts, b.zero, n - 4))
              && (done != [] ==> Last(done).at + 5 <= n - 4)
              && b.zero == StartTime(stream, done, n - 4) + 4 * PART_MS
  {}

  lemma DoneStays(stream: seq<Part>, n: nat, done: seq<Superframe>)
    requires n < |stream| && DoneWell(stream, n, done)
    ensures DoneWell(stream, n + 1, done)
  {
    hide StartTime;
  }

  lemma DoneGrows(stream: seq<Part>, n: nat, done: seq<Superframe>, f: Superframe)
    requires n < |stream| && DoneWell(stream, n, done)
    requires IsSuperframe(stream, n + 1, f) && (done != [] ==> Last(done).at + 5 <= f.at)
    requires f.ts == StartTime(stream, done, f.at) + 4 * PART_MS
    ensures DoneWell(stream, n + 1, done + [f])
  {
    hide StartTime;
    var more := done + [f];
    forall k | 0 <= k < |more| ensures more[k].ts == StartTime(stream, more[..k], more[k].at) + 4 * PART_MS {
      assert more[..k] == if k < |done| then done[..k] else done;
    }
  }

  lemma {:induction false} AssembleWell(stream: seq<Part>, n: nat)
    requires n <= |stream|
    ensures Well(stream, n, Assemble(stream[..n]))
  {
    hide Next, AssemblyWell, DoneWell;
    if n == 0 {
      EmptyWell(stream);
    } else {
      AssembleWell(stream, n - 1);
      NextWell(stream, n - 1, Assemble(stream[..n - 1]));
      assert stream[..n][..n - 1] == stream[..n - 1];
    }
  }

  lemma EmptyWell(stream: seq<Part>)
    ensures AssemblyWell(stream, 0, [], UNALIGNED) && DoneWell(stream, 0, [])
  {}

  /** Every superframe is five parts popped one after the other, with indexes 0 to 4 modulo 5. */
  lemma FiveConsecutiveParts(stream: seq<Part>, k: nat)
    requires k < |Assemble(stream).done|
    ensures IsSuperframe(stream, |stream|, Assemble(stream).done[k])
    ensures k > 0 ==> Assemble(stream).done[k - 1].at + 5 <= Assemble(stream).done[k].at
  {
    hide IsSuperframe, AssemblyWell;
    assert stream[..|stream|] == stream;
    AssembleWell(stream, |stream|);
    if k > 0 {
      assert 0 <= k - 1 < |Assemble(stream).done| - 1;
    }
  }

  /** Conversely, with nothing under construction, five such parts make a superframe. */
  lemma FiveMakeSuperframe(stream: seq<Part>, p: nat)
    requires p + 5 <= |stream| && Assemble(stream[..p]).assembly.parts == []
    requires Phased(stream[p..p + 5])
    ensures var o := Assemble(stream[..p + 5]);
            && o.assembly.parts == [] && |o.done| == |Assemble(stream[..p]).done| + 1
            && Last(o.done).parts == stream[p..p + 5] && Last(o.done).at == p
            && o.discarded == Assemble(stream[..p]).discarded
  {
    hide Next;
    var o, five := Assemble(stream[..p]), stream[p..p + 5];
    assert five[0].index % 5 == 0 && five[1].index % 5 == 1 && five[2].index % 5 == 2 && five[3].index % 5 == 3
           && five[4].index % 5 == 4;
    assert stream[p..p] == [] && stream[..p + 0] == stream[..p];
    Grow(stream, p, o, 0);
    Grow(stream, p, Assemble(stream[..p + 1]), 1);
    Grow(stream, p, Assemble(stream[..p + 2]), 2);
    Grow(stream, p, Assemble(stream[..p + 3]), 3);
    Grow(stream, p, Assemble(stream[..p + 4]), 4);
  }

  lemma Grow(stream: seq<Part>, p: nat, o: Progress, j: nat)
    requires j < 5 && p + j < |stream| && stream[p + j].index % 5 == j
    requires o == Assemble(stream[..p + j]) && o.assembly.parts == stream[p..p + j]
    requires j > 0 ==> o.assembly.aligned
    ensures var q := Assemble(stream[..p + j + 1]);
            && q.assembly.aligned && q.discarded == o.discarded
            && (j < 4 ==> q.assembly.parts == stream[p..p + j + 1] && q.done == o.done)
            && (j == 4 ==> q.assembly.parts == [])
            && (j == 4 ==> q.done == o.done + [Superframe(stream[p..p + 5], q.assembly.zero, p)])
  {
    PrefixOf(stream, p + j);
    hide Assemble;
    assert stream[p..p + j + 1] == stream[p..p + j] + [stream[p + j]];
  }

  /**
    Times: a superframe that begins right behind the previous one is 120 ms later; any other has the
    capture time of its first part plus the 96 ms of the four parts that follow it.
   */
  lemma SuperframeTimes(stream: seq<Part>, k: nat)
    requires k < |Assemble(stream).done|
    ensures var done := Assemble(stream).done;
            && 0 <= done[k].at < |stream|
            && done[k].ts == if k > 0 && done[k - 1].at + 5 == done[k].at then done[k - 1].ts + 120
                             else stream[done[k].at].frame.ts + 96
  {
    hide AssemblyWell;
    assert stream[..|stream|] == stream;
    AssembleWell(stream, |stream|);
    var done := Assemble(stream).done;
    assert IsSuperframe(stream, |stream|, done[k]);
    assert done[k].ts == StartTime(stream, done[..k], done[k].at) + 4 * PART_MS;
  }

  /** Every part is in a superframe, under construction, or discarded. */
  lemma {:induction false} PartsConserved(stream: seq<Part>)
    ensures var o := Assemble(stream);
            |stream| == 5 * |o.done| + |o.assembly.parts| + o.discarded && |o.assembly.parts| < 5
  {
    assert stream[..|stream|] == stream;
    AssembleWell(stream, |stream|);
  }

  /** Without alignment nothing is under construction. */
  lemma {:induction false} UnalignedIsEmpty(stream: seq<Part>)
    ensures !Assemble(stream).assembly.aligned ==> Assemble(stream).assembly.parts == []
  {
    hide Assemble, DoneWell;
    assert stream[..|stream|] == stream;
    AssembleWell(stream, |stream|);
  }

  //////////////////////////////////////////////////////////////////////////////
  //
  // After a loss
  //
  //////////////////////////////////////////////////////////////////////////////

  lemma PrefixOf(stream: seq<Part>, n: nat)
    requires n < |stream|
    ensures Assemble(stream[..n + 1]) == Next(Assemble(stream[..n]), stream[n], n)
  {
    assert stream[..n + 1][..n] == stream[..n];
  }

  /**
    Five parts with the residues 0 to 4 in a row are a superframe exactly when nothing is under
    construction before them.  Otherwise they are all discarded with what was under construction, and
    in either case nothing is under construction behind them, so that the next five are a superframe.
   */
  lemma FivePhasedParts(stream: seq<Part>, p: nat)
    requires p + 5 <= |stream| && Phased(stream[p..p + 5])
    ensures var o, q := Assemble(stream[..p]), Assemble(stream[..p + 5]);
            && q.assembly.parts == []
            && (if o.assembly.parts == [] then |q.done| == |o.done| + 1 && q.discarded == o.discarded
                else q.done == o.done && q.discarded == o.discarded + |o.assembly.parts| + 5)
  {
    if Assemble(stream[..p]).assembly.parts == [] {
      FiveMakeSuperframe(stream, p);
    } else {
      FiveDiscarded(stream, p);
    }
  }

  lemma FiveDiscarded(stream: seq<Part>, p: nat)
    requires p + 5 <= |stream| && Phased(stream[p..p + 5]) && Assemble(stream[..p]).assembly.parts != []
    ensures var o, q := Assemble(stream[..p]), Assemble(stream[..p + 5]);
            q.assembly.parts == [] && q.done == o.done && q.discarded == o.discarded + |o.assembly.parts| + 5
  {
    hide Assemble;
    var five, o := stream[p..p + 5], Assemble(stream[..p]);
    assert five[0].index % 5 == 0 && five[1].index % 5 == 1 && five[2].index % 5 == 2 && five[3].index % 5 == 3
           && five[4].index % 5 == 4;
    UnalignedIsEmpty(stream[..p]);
    PartsConserved(stream[..p]);
    PrefixOf(stream, p);
    PrefixOf(stream, p + 1);
    PrefixOf(stream, p + 2);
    PrefixOf(stream, p + 3);
    PrefixOf(stream, p + 4);
  }

  /** Finished superframes stay finished. */
  lemma {:induction false} DonePrefix(stream: seq<Part>, n: nat, m: nat)
    requires n <= m <= |stream|
    ensures Assemble(stream[..n]).done <= Assemble(stream[..m]).done
  {
    hide Assemble;
    if n < m {
      DonePrefix(stream, n, m - 1);
      PrefixOf(stream, m - 1);
    }
  }

  //////////////////////////////////////////////////////////////////////////////
  //
  // Sequence errors
  //
  //////////////////////////////////////////////////////////////////////////////

  function Successor(i: int): int {
    (i + 1) % MAX_QUEUE_SIZE
  }

  /** While aligned, the expected index is the successor of the last part's. */
  lemma {:induction false} ExpectedIsSuccessor(stream: seq<Part>, n: nat)
    requires n <= |stream|
    ensures Assemble(stream[..n]).assembly.aligned ==>
              n > 0 && Assemble(stream[..n]).assembly.expected == Successor(stream[n - 1].index)
  {
    if n > 0 {
      ExpectedIsSuccessor(stream, n - 1);
      PrefixOf(stream, n - 1);
    }
  }

  /** Part n is appended with the message about a superframe sequence error. */
  predicate SequenceError(stream: seq<Part>, n: nat)
    requires n < |stream|
  {
    var a := Assemble(stream[..n]).assembly;
    a.aligned && stream[n].index % 5 == |a.parts| && a.expected != stream[n].index
  }

  /** With r parts under construction, the last r parts of the stream brought them in one by one. */
  lemma {:induction false} UnderConstruction(stream: seq<Part>, n: nat, j: nat)
    requires n <= |stream| && 1 <= j <= |Assemble(stream[..n]).assembly.parts|
    ensures var r := |Assemble(stream[..n]).assembly.parts|;
            && n >= r && Assemble(stream[..n - r + j]).assembly.aligned
            && |Assemble(stream[..n - r + j]).assembly.parts| == j
  {
    hide Assemble;
    var r := |Assemble(stream[..n]).assembly.parts|;
    UnalignedIsEmpty(stream[..n]);
    PartsConserved(stream[..n]);
    if j < r {
      PrefixOf(stream, n - 1);
      UnalignedIsEmpty(stream[..n - 1]);
      UnderConstruction(stream, n - 1, j);
    }
  }

  lemma {:induction false} WithinSuperframe(stream: seq<Part>, n: nat, k: nat, j: nat)
    requires n <= |stream| && k < |Assemble(stream[..n]).done| && 1 <= j < 5
    ensures var at := Assemble(stream[..n]).done[k].at;
            && 0 <= at <= n - 5
            && Assemble(stream[..at + j]).assembly.aligned && |Assemble(stream[..at + j]).assembly.parts| == j
  {
    hide Assemble;
    if n == 0 {
      assert stream[..0] == [];
      NothingAssembled();
    } else {
      PrefixOf(stream, n - 1);
      if k < |Assemble(stream[..n - 1]).done| {
        WithinSuperframe(stream, n - 1, k, j);
      } else {
        PartsConserved(stream[..n - 1]);
        UnderConstruction(stream, n - 1, j);
      }
    }
  }

  lemma NothingAssembled()
    ensures Assemble([]) == Progress(UNALIGNED, [], 0)
  {}

  /** Part n follows its predecessor with the next index. */
  predicate Follows(stream: seq<Part>, n: nat)
    requires 0 < n < |stream|
  {
    stream[n].index == Successor(stream[n - 1].index)
  }

  /** Within a superframe, a sequence error is reported for exactly the parts whose index is not the next one. */
  lemma ErrorIffJump(stream: seq<Part>, k: nat, n: nat)
    requires k < |Assemble(stream).done| && Assemble(stream).done[k].at < n < Assemble(stream).done[k].at + 5
    ensures 0 < n < |stream| && (SequenceError(stream, n) <==> !Follows(stream, n))
  {
    hide Assemble, Successor;
    assert stream[..|stream|] == stream;
    FiveConsecutiveParts(stream, k);
    var f := Assemble(stream).done[k];
    var j := n - f.at;
    WithinSuperframe(stream, |stream|, k, j);
    ExpectedIsSuccessor(stream, n);
    assert stream[n] == f.parts[j] && f.parts[j].index % 5 == j;
  }

  //////////////////////////////////////////////////////////////////////////////
  //
  // Gap-free streams
  //
  //////////////////////////////////////////////////////////////////////////////

  /** Every index follows its predecessor, from 4999 on to 0. */
  ghost predicate Contiguous(stream: seq<Part>) {
    && (forall i :: 0 <= i < |stream| ==> 0 <= stream[i].index < MAX_QUEUE_SIZE)
    && forall i :: 0 <= i < |stream| - 1 ==> stream[i + 1].index == Wrap(MAX_QUEUE_SIZE, stream[i].index + 1)
  }

  /** The first position whose index is divisible by 5. */
  function FirstAligned(stream: seq<Part>): (f: nat)
    requires stream != []
    ensures f < 5
  {
    (5 - stream[0].index % 5) % 5
  }

  lemma WrapKeepsResidue(i: int)
    requires 0 <= i < MAX_QUEUE_SIZE
    ensures Wrap(MAX_QUEUE_SIZE, i + 1) % 5 == (i % 5 + 1) % 5
  {}

  lemma {:induction false} ContiguousResidue(stream: seq<Part>, n: nat)
    requires Contiguous(stream) && n < |stream|
    ensures stream[n].index % 5 == (stream[0].index + n) % 5
  {
    hide Wrap;
    if n > 0 {
      ContiguousResidue(stream, n - 1);
      WrapKeepsResidue(stream[n - 1].index);
      assert stream[(n - 1) + 1].index == Wrap(MAX_QUEUE_SIZE, stream[n - 1].index + 1);
    }
  }

  /** After n parts: nothing but the parts before position f is discarded, and superframe k begins at f + 5k. */
  ghost predicate Chopped(stream: seq<Part>, f: nat, n: nat, o: Progress) {
    && o.assembly.aligned && o.discarded == f
    && n == f + 5 * |o.done| + |o.assembly.parts|
    && forall k :: 0 <= k < |o.done| ==> o.done[k].at == f + 5 * k
  }

  lemma {:induction false} ContiguousChopped(stream: seq<Part>, n: nat)
    requires Contiguous(stream) && stream != [] && n <= |stream|
    ensures var f, o := FirstAligned(stream), Assemble(stream[..n]);
            if n <= f then o == Progress(UNALIGNED, [], n) else Chopped(stream, f, n, o)
  {
    hide Contiguous;
    var f := FirstAligned(stream);
    if n > 0 {
      ContiguousChopped(stream, n - 1);
      ContiguousResidue(stream, n - 1);
      assert stream[..n][..n - 1] == stream[..n - 1];
      AssembleWell(stream, n - 1);
      hide Assemble;
      ChoppedStep(stream, f, n - 1, Assemble(stream[..n - 1]));
    }
  }

  lemma ChoppedStep(stream: seq<Part>, f: nat, n: nat, o: Progress)
    requires stream != [] && f == FirstAligned(stream)
    requires n < |stream| && stream[n].index % 5 == (stream[0].index + n) % 5
    requires |o.assembly.parts| < 5
    requires if n <= f then o == Progress(UNALIGNED, [], n) else Chopped(stream, f, n, o)
    ensures var q := Next(o, stream[n], n);
            if n + 1 <= f then q == Progress(UNALIGNED, [], n + 1) else Chopped(stream, f, n + 1, q)
  {
    ResidueSteps(stream[0].index, n, f);
  }

  lemma ResidueSteps(i: int, n: nat, f: nat)
    requires f == (5 - i % 5) % 5
    ensures n <= f ==> ((i + n) % 5 == 0 <==> n == f)
    ensures n >= f ==> (i + n) % 5 == (n - f) % 5
  {}

  /**
    A gap-free stream is never realigned: from the first index divisible by 5 on it is chopped into
    superframes without loss, also across the wrap of the index, and the superframes are 120 ms apart.
   */
  lemma GapFreeStream(stream: seq<Part>)
    requires Contiguous(stream) && FirstAlignedIn(stream)
    ensures var f, o := FirstAligned(stream), Assemble(stream);
            && o.assembly.aligned && o.discarded == f
            && |o.done| == (|stream| - f) / 5
            && forall k :: 0 <= k < |o.done| ==>
                 && f + 5 * k + 5 <= |stream| && o.done[k].parts == stream[f + 5 * k..f + 5 * k + 5]
                 && o.done[k].ts == stream[f].frame.ts + 96 + 120 * k
  {
    hide Contiguous, FirstAligned, Assemble, IsSuperframe;
    var f, o := FirstAligned(stream), Assemble(stream);
    assert stream[..|stream|] == stream;
    ContiguousChopped(stream, |stream|);
    PartsConserved(stream);
    ChopTimes(stream, f, |o.done|);
  }

  ghost predicate FirstAlignedIn(stream: seq<Part>) {
    stream != [] && FirstAligned(stream) < |stream|
  }

  lemma {:induction false} ChopTimes(stream: seq<Part>, f: nat, n: nat)
    requires Chopped(stream, f, |stream|, Assemble(stream)) && f < |stream| && n <= |Assemble(stream).done|
    ensures forall k :: 0 <= k < n ==>
              var o := Assemble(stream);
              && f + 5 * k + 5 <= |stream| && o.done[k].parts == stream[f + 5 * k..f + 5 * k + 5]
              && o.done[k].ts == stream[f].frame.ts + 96 + 120 * k
  {
    hide Assemble;
    if n > 0 {
      ChopTimes(stream, f, n - 1);
      FiveConsecutiveParts(stream, n - 1);
      SuperframeTimes(stream, n - 1);
    }
  }
}
