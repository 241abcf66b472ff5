/** Whole runs of the jitter buffer: conservation, where popped frames come from, and reordering. */
module QueueRuns {
  import opened Arithmetic
  import opened Counting
  import opened OrderedQueues

  lemma RunPrefix(max: int, capacity: nat, ss: seq<State>, es: seq<Event>, n: nat)
    requires Run(max, capacity, ss, es) && n <= |es|
    ensures Run(max, capacity, ss[..n + 1], es[..n])
  {
    hide Step, Sound;
  }

  /** In every state of every run the stock respects its capacity and holds proper indexes only. */
  lemma {:induction false} RunSound(max: int, capacity: nat, ss: seq<State>, es: seq<Event>, n: nat)
    requires Run(max, capacity, ss, es) && n <= |es|
    ensures Sound(max, capacity, ss[n])
  {
    hide Step;
    if n > 0 {
      RunSound(max, capacity, ss, es, n - 1);
      StepSound(max, capacity, ss[n - 1], es[n - 1], ss[n]);
    }
  }

  //////////////////////////////////////////////////////////////////////////////
  //
  // Conservation
  //
  //////////////////////////////////////////////////////////////////////////////

  function Pushes(es: seq<Event>): nat {
    if es == [] then 0 else Pushes(es[..|es| - 1]) + if es[|es| - 1].Pushed? then 1 else 0
  }

  /** Every pushed frame is popped, in stock, replaced by a duplicate, or counted as an overrun. */
  lemma {:induction false} Conservation(max: int, capacity: nat, ss: seq<State>, es: seq<Event>)
    requires Run(max, capacity, ss, es)
    ensures var s := ss[|es|]; Pushes(es) == Pops(es) + |s.stock| + s.duplicated + s.overruns
  {
    if es != [] {
      var n := |es| - 1;
      RunPrefix(max, capacity, ss, es, n);
      Conservation(max, capacity, ss[..n + 1], es[..n]);
      RunSound(max, capacity, ss, es, n);
      StockChange(max, capacity, ss[n], es[n], ss[n + 1]);
    }
  }

  lemma StockChange(max: int, capacity: nat, s: State, e: Event, t: State)
    requires Sound(max, capacity, s) && Step(max, capacity, s, e, t)
    ensures |t.stock| + t.duplicated + t.overruns + (if e.Popped? then 1 else 0)
         == |s.stock| + s.duplicated + s.overruns + (if e.Pushed? then 1 else 0)
  {
    hide Index, Wrap;
    match e
    case Pushed(index, frame) =>
      Insert(s.stock, Index(max, index), frame);
    case Popped(i, frame) =>
      Remove(s.stock, i);
    case Nothing =>
  }

  /** The pushes that met a full stock. */
  ghost function Refused(capacity: nat, ss: seq<State>, es: seq<Event>): nat
    requires |ss| == |es| + 1
  {
    if es == [] then 0
    else
      var n := |es| - 1;
      Refused(capacity, ss[..n + 1], es[..n]) + if es[n].Pushed? && |ss[n].stock| >= capacity then 1 else 0
  }

  /** The pushes that were accepted under an index already in stock. */
  ghost function Replaced(max: int, capacity: nat, ss: seq<State>, es: seq<Event>): nat
    requires |ss| == |es| + 1 && 0 < max
  {
    if es == [] then 0
    else
      var n := |es| - 1;
      Replaced(max, capacity, ss[..n + 1], es[..n])
      + if es[n].Pushed? && |ss[n].stock| < capacity && es[n].index % max in ss[n].stock then 1 else 0
  }

  /** Which pushes the two counters count. */
  lemma {:induction false} CountersExactly(max: int, capacity: nat, ss: seq<State>, es: seq<Event>)
    requires Run(max, capacity, ss, es)
    ensures ss[|es|].overruns == Refused(capacity, ss, es)
    ensures ss[|es|].duplicated == Replaced(max, capacity, ss, es)
  {
    if es != [] {
      var n := |es| - 1;
      RunPrefix(max, capacity, ss, es, n);
      CountersExactly(max, capacity, ss[..n + 1], es[..n]);
      RunSound(max, capacity, ss, es, n);
      CountersStep(max, capacity, ss[n], es[n], ss[n + 1]);
    }
  }

  lemma CountersStep(max: int, capacity: nat, s: State, e: Event, t: State)
    requires Sound(max, capacity, s) && Step(max, capacity, s, e, t)
    ensures t.overruns == s.overruns + if e.Pushed? && |s.stock| >= capacity then 1 else 0
    ensures t.duplicated
         == s.duplicated + if e.Pushed? && |s.stock| < capacity && e.index % max in s.stock then 1 else 0
  {
    hide Wrap;
    if e.Pushed? {
      IndexIsResidue(max, e.index);
    }
  }

  lemma IndexIsResidue(max: int, number: int)
    requires 0 < max && -max <= number
    ensures Index(max, number) == number % max
  {
    var q, r := number / max, number % max;
    assert number == q * max + r;
    assert number + max == (q + 1) * max + r;
    DivModUnique(number + max, max, q + 1, r);
  }

  //////////////////////////////////////////////////////////////////////////////
  //
  // Provenance
  //
  //////////////////////////////////////////////////////////////////////////////

  /** Event k stores a frame under index i. */
  ghost predicate Stores(max: int, capacity: nat, s: State, e: Event, i: int)
    requires 0 < max
  {
    e.Pushed? && -max <= e.index && Index(max, e.index) == i && |s.stock| < capacity
  }

  ghost predicate Touches(max: int, capacity: nat, s: State, e: Event, i: int)
    requires 0 < max
  {
    Stores(max, capacity, s, e, i) || (e.Popped? && e.index == i)
  }

  /** Event k is the last before n that stored or popped index i, and it stored frame f. */
  ghost predicate LastStored(max: int, capacity: nat, ss: seq<State>, es: seq<Event>, i: int, f: Frame, k: nat, n: nat)
    requires 0 < max && k < n <= |es| < |ss|
  {
    && Stores(max, capacity, ss[k], es[k], i) && es[k].frame == f
    && forall x :: k < x < n ==> !Touches(max, capacity, ss[x], es[x], i)
  }

  /** A frame in stock was accepted by the last event that concerned its index. */
  lemma {:induction false} StockOrigin(max: int, capacity: nat, ss: seq<State>, es: seq<Event>, i: int, n: nat)
      returns (k: nat)
    requires Run(max, capacity, ss, es) && n <= |es| && i in ss[n].stock
    ensures k < n && LastStored(max, capacity, ss, es, i, ss[n].stock[i], k, n)
  {
    hide Sound, Index, Wrap, CanPop, IsNext;
    if n > 0 {
      RunSound(max, capacity, ss, es, n - 1);
    }
    if Stores(max, capacity, ss[n - 1], es[n - 1], i) {
      k := n - 1;
    } else {
      assert i in ss[n - 1].stock && ss[n].stock[i] == ss[n - 1].stock[i];
      k := StockOrigin(max, capacity, ss, es, i, n - 1);
    }
  }

  /** A popped frame is the one pushed last among the accepted pushes of its index. */
  lemma PopOrigin(max: int, capacity: nat, ss: seq<State>, es: seq<Event>, n: nat) returns (k: nat)
    requires Run(max, capacity, ss, es) && n < |es| && es[n].Popped?
    ensures k < n && LastStored(max, capacity, ss, es, es[n].index, es[n].frame, k, n)
  {
    RunSound(max, capacity, ss, es, n);
    assert es[n].index in ss[n].stock && ss[n].stock[es[n].index] == es[n].frame by {
      assert Step(max, capacity, ss[n], es[n], ss[n + 1]);
    }
    k := StockOrigin(max, capacity, ss, es, es[n].index, n);
  }

  //////////////////////////////////////////////////////////////////////////////
  //
  // Reordering
  //
  //////////////////////////////////////////////////////////////////////////////

  /** What the network and the reader do: frame number n arrives, or the reader asks for a frame. */
  datatype Op = Arrive(n: nat) | Fetch

  ghost function Arrived(ops: seq<Op>): (r: set<nat>)
    ensures forall i :: 0 <= i < |ops| && ops[i].Arrive? ==> ops[i].n in r
  {
    if ops == [] then {}
    else
      var op := ops[|ops| - 1];
      Arrived(ops[..|ops| - 1]) + if op.Arrive? then {op.n} else {}
  }

  /** Frame n may arrive next: it is new, and no frame `capacity` or more before it is still missing. */
  ghost predicate InWindow(arrived: set<nat>, first: nat, capacity: nat, n: nat) {
    && first <= n && n !in arrived
    && (arrived == {} ==> n == first)
    && forall t: nat :: first <= t <= n - capacity ==> t in arrived
  }

  /** The frames from `first` on are sent in order and displaced by less than the capacity. */
  ghost predicate Reordered(ops: seq<Op>, first: nat, capacity: nat) {
    forall i :: 0 <= i < |ops| && ops[i].Arrive? ==> InWindow(Arrived(ops[..i]), first, capacity, ops[i].n)
  }

  /** The events of a run carry out the operations; frame n travels under its number modulo max. */
  ghost predicate CarriesOut(es: seq<Event>, ops: seq<Op>, max: int, content: nat -> Frame)
    requires 0 < max
  {
    && |es| == |ops|
    && forall i :: 0 <= i < |ops| ==>
         match ops[i]
         case Arrive(n) => es[i] == Pushed(Residue(n, max), content(n))
         case Fetch => !es[i].Pushed?
  }

  /** What pops deliver when nothing is lost: the frames from `first` on, in order. */
  function InOrder(first: nat, count: nat, max: int, content: nat -> Frame): (fs: seq<Part>)
    requires 0 < max
    ensures |fs| == count
    ensures forall i :: 0 <= i < count ==> fs[i] == Part(Residue(first + i, max), content(first + i))
  {
    seq(count, i requires 0 <= i < count => Part(Residue(first + i, max), content(first + i)))
  }

  /** The frames that have arrived and are not yet delivered. */
  ghost function Pending(arrived: set<nat>, next: nat): (r: set<nat>) {
    set n | n in arrived && n >= next
  }

  /** The stock holds exactly the frames with the numbers p, each under its residue. */
  ghost predicate Holds(stock: map<int, Frame>, p: set<nat>, max: int, content: nat -> Frame)
    requires 0 < max
  {
    && |stock| == |p|
    && (forall n :: n in p ==> Residue(n, max) in stock && stock[Residue(n, max)] == content(n))
    && (forall i :: i in stock ==> exists n :: n in p && Residue(n, max) == i)
  }

  lemma HoldsInsert(stock: map<int, Frame>, p: set<nat>, max: int, content: nat -> Frame, n: nat)
    requires 0 < max && Holds(stock, p, max, content)
    requires n !in p && forall a :: a in p ==> Residue(a, max) != Residue(n, max)
    ensures Residue(n, max) !in stock
    ensures Holds(stock[Residue(n, max) := content(n)], p + {n}, max, content)
  {
    hide Residue;
    var r := Residue(n, max);
    var grown := stock[r := content(n)];
    Insert(stock, r, content(n));
    forall i | i in grown ensures exists a :: a in p + {n} && Residue(a, max) == i {
      if i == r {
        assert n in p + {n};
      } else {
        var a :| a in p && Residue(a, max) == i;
        assert a in p + {n};
      }
    }
  }

  lemma HoldsRemove(stock: map<int, Frame>, p: set<nat>, max: int, content: nat -> Frame, n: nat)
    requires 0 < max && Holds(stock, p, max, content)
    requires n in p && forall a :: a in p && a != n ==> Residue(a, max) != Residue(n, max)
    ensures Residue(n, max) in stock && stock[Residue(n, max)] == content(n)
    ensures Holds(stock - {Residue(n, max)}, p - {n}, max, content)
  {
    hide Residue;
    var r := Residue(n, max);
    var rest := stock - {r};
    Remove(stock, r);
    forall i | i in rest ensures exists a :: a in p - {n} && Residue(a, max) == i {
      var a :| a in p && Residue(a, max) == i;
      assert a in p - {n};
    }
  }

  lemma ResidueIsIndex(n: nat, max: int)
    requires 0 < max
    ensures Index(max, Residue(n, max)) == Residue(n, max)
  {
    WrapIs(max, n % max + max);
  }

  /** The frames before `next` are delivered, the stock holds those that came in since. */
  ghost predicate Tracks(s: State, arrived: set<nat>, first: nat, next: nat, max: int, content: nat -> Frame)
    requires 0 < max
  {
    && first <= next
    && (forall n: nat :: first <= n < next ==> n in arrived)
    && Holds(s.stock, Pending(arrived, next), max, content)
    && (arrived == {} ==> s.last == -1 && next == first)
    && (arrived != {} ==> s.last != -1 && -1 <= s.last < max && Wrap(max, s.last + 1) == Residue(next, max))
  }

  /** Of the arrived frames none misses a frame `capacity` or more before it. */
  ghost predicate Window(arrived: set<nat>, first: nat, capacity: nat) {
    forall n, t: nat :: n in arrived && first <= t <= n - capacity ==> t in arrived
  }

  /** Pending frames span less than twice the capacity. */
  lemma PendingSpan(arrived: set<nat>, first: nat, capacity: nat, next: nat, n: nat)
    requires first <= next && |Pending(arrived, next)| <= capacity
    requires forall t: nat :: first <= t <= n - capacity ==> t in arrived
    ensures n < next + 2 * capacity
  {
    if n >= next + 2 * capacity {
      SubsetSize(Range(next, capacity + 1), Pending(arrived, next));
    }
  }

  /** So they have distinct residues. */
  lemma PendingDistinct(arrived: set<nat>, first: nat, capacity: nat, next: nat, max: int, n: nat)
    requires 0 < max && 2 * capacity <= max && first <= next <= n && |Pending(arrived, next)| <= capacity
    requires Window(arrived, first, capacity)
    requires forall t: nat :: first <= t <= n - capacity ==> t in arrived
    ensures forall a :: a in Pending(arrived, next) && a != n ==> Residue(a, max) != Residue(n, max)
  {
    hide Residue;
    PendingSpan(arrived, first, capacity, next, n);
    forall a | a in Pending(arrived, next) && a != n ensures Residue(a, max) != Residue(n, max) {
      PendingSpan(arrived, first, capacity, next, a);
      if Residue(a, max) == Residue(n, max) {
        ResidueUnique(max, next, a, n);
      }
    }
  }

  /** An arrival in the window is stored under an index of its own. */
  lemma TrackArrival(max: int, capacity: nat, s: State, t: State, arrived: set<nat>, first: nat, next: nat, n: nat,
                     content: nat -> Frame)
    requires 0 < max && 2 * capacity <= max && Sound(max, capacity, s)
    requires Tracks(s, arrived, first, next, max, content)
    requires Window(arrived, first, capacity) && InWindow(arrived, first, capacity, n)
    requires Step(max, capacity, s, Pushed(Residue(n, max), content(n)), t) && t.overruns == s.overruns
    ensures Tracks(t, arrived + {n}, first, next, max, content) && Window(arrived + {n}, first, capacity)
    ensures t.duplicated == s.duplicated
  {
    hide Residue, Index, Holds;
    var p := Pending(arrived, next);
    assert Pending(arrived + {n}, next) == p + {n};
    ResidueIsIndex(n, max);
    assert |p| <= capacity by {
      HoldsSize(s.stock, p, max, content);
    }
    PendingDistinct(arrived, first, capacity, next, max, n);
    HoldsInsert(s.stock, p, max, content, n);
  }

  lemma HoldsSize(stock: map<int, Frame>, p: set<nat>, max: int, content: nat -> Frame)
    requires 0 < max && Holds(stock, p, max, content)
    ensures |stock| == |p|
  {}

  /** A fetch delivers the next frame if it has arrived and nothing otherwise. */
  lemma TrackFetch(max: int, capacity: nat, s: State, e: Event, t: State, arrived: set<nat>, first: nat, next: nat,
                   content: nat -> Frame)
    requires 0 < max && 2 * capacity <= max && Sound(max, capacity, s)
    requires Tracks(s, arrived, first, next, max, content) && Window(arrived, first, capacity)
    requires forall n :: n in arrived ==> first <= n
    requires Step(max, capacity, s, e, t) && !e.Pushed?
    ensures t.duplicated == s.duplicated
    ensures if next in arrived then
              e == Popped(Residue(next, max), content(next)) && Tracks(t, arrived, first, next + 1, max, content)
            else e == Nothing && t == s
  {
    hide Residue, Holds, Distance;
    var p := Pending(arrived, next);
    HoldsSize(s.stock, p, max, content);
    if next in arrived {
      PendingDistinct(arrived, first, capacity, next, max, next);
      HoldsRemove(s.stock, p, max, content, next);
      DistanceIs(max, s.last, 0, Residue(next, max));
      assert e.Popped?;
      DistanceIs(max, s.last, 0, e.index);
      assert Pending(arrived, next + 1) == p - {next};
      NextResidue(next, max);
    } else {
      NothingYet(max, capacity, s, arrived, first, next, content);
    }
  }

  /** While the next frame is missing, the stock is not full and lacks its index. */
  lemma NothingYet(max: int, capacity: nat, s: State, arrived: set<nat>, first: nat, next: nat, content: nat -> Frame)
    requires 0 < max && 2 * capacity <= max && Sound(max, capacity, s)
    requires Tracks(s, arrived, first, next, max, content) && Window(arrived, first, capacity)
    requires forall n :: n in arrived ==> first <= n
    requires next !in arrived
    ensures !CanPop(max, capacity, s)
  {
    hide Residue;
    var p := Pending(arrived, next);
    forall a | a in p ensures next < a < next + capacity && Residue(a, max) != Residue(next, max) {
      assert !(first <= next <= a - capacity);
      if Residue(a, max) == Residue(next, max) {
        ResidueUnique(max, next, a, next);
      }
    }
    if p != {} {
      SubsetSize(p, Range(next + 1, capacity - 1));
    }
  }

  /** The last step of a run; overruns are never forgotten. */
  lemma RunStep(max: int, capacity: nat, ss: seq<State>, es: seq<Event>)
    requires Run(max, capacity, ss, es) && es != []
    ensures var k := |es| - 1;
            && |ss| == |es| + 1 && 0 < max
            && Sound(max, capacity, ss[k]) && Step(max, capacity, ss[k], es[k], ss[k + 1])
            && ss[k].overruns <= ss[k + 1].overruns
  {
    var k := |es| - 1;
    RunSound(max, capacity, ss, es, k);
    assert Step(max, capacity, ss[k], es[k], ss[k + 1]);
  }

  /**
    The jitter buffer undoes every reordering by less than its capacity: as long as no push found
    it full, the frames leave one by one in the order of their numbers, each with its own content,
    none twice and none skipped.
   */
  lemma {:induction false} ReorderTolerance(max: int, capacity: nat, ss: seq<State>, es: seq<Event>, ops: seq<Op>,
                                            first: nat, content: nat -> Frame)
    requires Run(max, capacity, ss, es) && 2 * capacity <= max
    requires CarriesOut(es, ops, max, content) && Reordered(ops, first, capacity)
    requires |ss| == |es| + 1 && ss[|es|].overruns == 0
    ensures Fetched(es) == InOrder(first, Pops(es), max, content)
    ensures ss[|es|].duplicated == 0
    ensures Tracks(ss[|es|], Arrived(ops), first, first + Pops(es), max, content)
    ensures Window(Arrived(ops), first, capacity) && forall n :: n in Arrived(ops) ==> first <= n
  {
    hide Residue, Tracks, Step, Sound, Window, InWindow, Run, Reordered, InOrder, Fetched, Pops, Arrived, CarriesOut;
    if es == [] {
      RunStart(max, capacity, ss, es);
      NothingArrived(first, max, capacity, content);
      NothingHappened(es, ops, max, first, content);
    } else {
      var k := |es| - 1;
      RunStep(max, capacity, ss, es);
      LastCarriedOut(es, ops, max, content);
      LastFetched(es);
      LastArrived(ops);
      RunPrefix(max, capacity, ss, es, k);
      ReorderedPrefix(ops, first, capacity, k);
      ReorderTolerance(max, capacity, ss[..k + 1], es[..k], ops[..k], first, content);
      InOrderGrows(first, Pops(es[..k]), max, content);
      assert ss[..k + 1][|es[..k]|] == ss[k];
      ReorderStep(max, capacity, ss[k], es[k], ss[k + 1], ops[k], Arrived(ops[..k]), first, Pops(es[..k]), content);
    }
  }

  lemma ReorderStep(max: int, capacity: nat, s: State, e: Event, t: State, op: Op, arrived: set<nat>, first: nat,
                    count: nat, content: nat -> Frame)
    requires 0 < max && 2 * capacity <= max && Sound(max, capacity, s) && Step(max, capacity, s, e, t)
    requires Tracks(s, arrived, first, first + count, max, content)
    requires Window(arrived, first, capacity) && forall n :: n in arrived ==> first <= n
    requires if op.Arrive? then
               && InWindow(arrived, first, capacity, op.n) && t.overruns == s.overruns
               && e == Pushed(Residue(op.n, max), content(op.n))
             else !e.Pushed?
    ensures t.duplicated == s.duplicated
    ensures var after := if op.Arrive? then arrived + {op.n} else arrived;
            var next := first + count + if e.Popped? then 1 else 0;
            && Tracks(t, after, first, next, max, content)
            && Window(after, first, capacity) && forall n :: n in after ==> first <= n
    ensures e.Popped? ==> e == Popped(Residue(first + count, max), content(first + count))
  {
    hide Residue, Tracks, Step, Sound, Window, InWindow;
    match op
    case Arrive(n) =>
      TrackArrival(max, capacity, s, t, arrived, first, first + count, n, content);
      AtLeastFirst(arrived, first, capacity, n);
    case Fetch =>
      TrackFetch(max, capacity, s, e, t, arrived, first, first + count, content);
  }

  /** The last event carries out the last operation. */
  lemma LastCarriedOut(es: seq<Event>, ops: seq<Op>, max: int, content: nat -> Frame)
    requires 0 < max && es != [] && CarriesOut(es, ops, max, content)
    ensures var k := |es| - 1;
            && |ops| == |es| && CarriesOut(es[..k], ops[..k], max, content)
            && (ops[k].Arrive? ==> es[k] == Pushed(Residue(ops[k].n, max), content(ops[k].n)))
            && (ops[k].Fetch? ==> !es[k].Pushed?)
  {
    hide Residue;
  }

  lemma LastFetched(es: seq<Event>)
    requires es != []
    ensures var k := |es| - 1;
            && Pops(es) == Pops(es[..k]) + (if es[k].Popped? then 1 else 0)
            && Fetched(es) == Fetched(es[..k]) + if es[k].Popped? then [Part(es[k].index, es[k].frame)] else []
  {}

  lemma LastArrived(ops: seq<Op>)
    requires ops != []
    ensures var k := |ops| - 1;
            Arrived(ops) == if ops[k].Arrive? then Arrived(ops[..k]) + {ops[k].n} else Arrived(ops[..k])
  {}

  lemma InOrderGrows(first: nat, n: nat, max: int, content: nat -> Frame)
    requires 0 < max
    ensures InOrder(first, n + 1, max, content)
         == InOrder(first, n, max, content) + [Part(Residue(first + n, max), content(first + n))]
  {
    hide Residue;
  }

  lemma NothingHappened(es: seq<Event>, ops: seq<Op>, max: int, first: nat, content: nat -> Frame)
    requires 0 < max && es == [] && CarriesOut(es, ops, max, content)
    ensures Pops(es) == 0 && Fetched(es) == InOrder(first, 0, max, content) && Arrived(ops) == {}
  {}

  lemma RunStart(max: int, capacity: nat, ss: seq<State>, es: seq<Event>)
    requires Run(max, capacity, ss, es)
    ensures 0 < max && |ss| == |es| + 1 && ss[0] == State(-1, map[], 0, 0)
  {}

  lemma NothingArrived(first: nat, max: int, capacity: nat, content: nat -> Frame)
    requires 0 < max
    ensures Tracks(State(-1, map[], 0, 0), {}, first, first, max, content) && Window({}, first, capacity)
  {
    assert Pending({}, first) == {};
  }

  lemma ReorderedPrefix(ops: seq<Op>, first: nat, capacity: nat, k: nat)
    requires Reordered(ops, first, capacity) && k < |ops|
    ensures Reordered(ops[..k], first, capacity)
    ensures ops[k].Arrive? ==> InWindow(Arrived(ops[..k]), first, capacity, ops[k].n)
  {
    hide InWindow, Arrived;
    forall i | 0 <= i < k && ops[..k][i].Arrive? ensures InWindow(Arrived(ops[..k][..i]), first, capacity, ops[i].n) {
      assert ops[..k][..i] == ops[..i];
    }
  }

  lemma AtLeastFirst(arrived: set<nat>, first: nat, capacity: nat, n: nat)
    requires InWindow(arrived, first, capacity, n) && forall a :: a in arrived ==> first <= a
    ensures forall a :: a in arrived + {n} ==> first <= a
  {}
}
