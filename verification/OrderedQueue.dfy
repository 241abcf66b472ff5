/**
  The jitter buffer: frames arrive out of order under a circular index and leave in order.
 */
module OrderedQueues {
  import opened Arithmetic
  import opened Bytes

  /** A frame and the time of its capture, in milliseconds. */
  datatype Frame = Frame(buf: seq<Byte>, ts: int)

  const NO_FRAME := Frame([], 0)

  /** A frame that left the queue and the index it had there. */
  datatype Part = Part(index: int, frame: Frame)

  datatype State = State(last: int, stock: map<int, Frame>, duplicated: nat, overruns: nat)

  /** What happens to a queue: a push, a pop that finds a frame, a pop that does not. */
  datatype Event = Pushed(index: int, frame: Frame) | Popped(index: int, frame: Frame) | Nothing

  //////////////////////////////////////////////////////////////////////////////
  //
  // Circular indexes
  //
  //////////////////////////////////////////////////////////////////////////////

  /** How far index i is ahead of the successor of the index popped last. */
  function Distance(max: int, last: int, i: int): (d: int)
    requires -1 <= last < max && 0 <= i < max
    ensures 0 <= d < max
  {
    if i > last then i - last - 1 else i - last - 1 + max
  }

  /** A number is wrapped into [0, max). */
  function Wrap(max: int, x: int): (r: int)
    requires 0 < max && 0 <= x < 2 * max
    ensures 0 <= r < max
    ensures r == x % max
  {
    WrapIs(max, x);
    if x < max then x else x - max
  }

  lemma WrapIs(max: int, x: int)
    requires 0 < max && 0 <= x < 2 * max
    ensures x % max == if x < max then x else x - max
  {
    DivModUnique(x, max, if x < max then 0 else 1, if x < max then x else x - max);
  }

  lemma WrapStep(max: int, x: int)
    requires 0 < max && 0 <= x < 2 * max - 1
    ensures Wrap(max, Wrap(max, x) + 1) == Wrap(max, x + 1)
  {}

  /** The index of a frame number. */
  function Index(max: int, number: int): (i: int)
    requires 0 < max && -max <= number
    ensures 0 <= i < max
  {
    (number + max) % max
  }

  /** Going `gap` steps on from the successor of `last` meets exactly the index at that distance. */
  lemma DistanceIs(max: int, last: int, gap: int, i: int)
    requires -1 <= last < max && 0 <= i < max && 0 <= gap < max
    ensures Distance(max, last, i) == gap <==> i == Wrap(max, last + 1 + gap)
  {}

  //////////////////////////////////////////////////////////////////////////////
  //
  // The specification of the two operations
  //
  //////////////////////////////////////////////////////////////////////////////

  /** What every queue state satisfies. */
  ghost predicate Sound(max: int, capacity: nat, s: State) {
    && 0 < max
    && -1 <= s.last < max
    && (forall i :: i in s.stock ==> 0 <= i < max)
    && |s.stock| <= capacity
    && (s.last == -1 ==> s.stock == map[])
  }

  ghost function AfterPush(max: int, capacity: nat, s: State, index: int, frame: Frame): State
    requires Sound(max, capacity, s) && -max <= index
  {
    var i := Index(max, index);
    var last := if s.last == -1 then Wrap(max, i + max - 1) else s.last;
    if |s.stock| < capacity then
      State(last, s.stock[i := frame], if i in s.stock then s.duplicated + 1 else s.duplicated, s.overruns)
    else
      State(last, s.stock, s.duplicated, s.overruns + 1)
  }

  /** The stored index that comes first after the index popped last. */
  ghost predicate IsNext(max: int, capacity: nat, s: State, i: int)
    requires Sound(max, capacity, s)
  {
    i in s.stock && forall j :: j in s.stock ==> Distance(max, s.last, i) <= Distance(max, s.last, j)
  }

  /** A pop waits for a missing successor until the stock is full. */
  ghost predicate CanPop(max: int, capacity: nat, s: State)
    requires Sound(max, capacity, s)
  {
    s.stock != map[] && (|s.stock| < capacity ==> Wrap(max, s.last + 1) in s.stock)
  }

  ghost predicate Step(max: int, capacity: nat, s: State, e: Event, t: State)
    requires Sound(max, capacity, s)
  {
    match e
    case Pushed(index, frame) =>
      -max <= index && t == AfterPush(max, capacity, s, index, frame)
    case Popped(i, frame) =>
      && CanPop(max, capacity, s) && IsNext(max, capacity, s, i) && frame == s.stock[i]
      && t == s.(last := i, stock := s.stock - {i})
    case Nothing =>
      !CanPop(max, capacity, s) && t == s
  }

  lemma Insert(m: map<int, Frame>, i: int, frame: Frame)
    ensures |m[i := frame]| == if i in m then |m| else |m| + 1
  {
    assert m[i := frame].Keys == m.Keys + {i};
  }

  lemma Remove(m: map<int, Frame>, i: int)
    requires i in m
    ensures |m - {i}| == |m| - 1
  {
    assert (m - {i}).Keys == m.Keys - {i};
  }

  lemma Element<T>(s: set<T>) returns (x: T)
    requires |s| > 0
    ensures x in s
  {
    x :| x in s;
  }

  lemma StepSound(max: int, capacity: nat, s: State, e: Event, t: State)
    requires Sound(max, capacity, s) && Step(max, capacity, s, e, t)
    ensures Sound(max, capacity, t)
  {
    hide Index, Wrap;
    match e
    case Pushed(index, frame) =>
      Insert(s.stock, Index(max, index), frame);
    case Popped(i, frame) =>
      Remove(s.stock, i);
    case Nothing =>
  }

  /** The first stored index is unique, so the outcome of a pop is determined by the state. */
  lemma PopDetermined(max: int, capacity: nat, s: State, e: Event, f: Event, t: State, u: State)
    requires Sound(max, capacity, s) && Step(max, capacity, s, e, t) && Step(max, capacity, s, f, u)
    requires !e.Pushed? && !f.Pushed?
    ensures e == f && t == u
  {
    if e.Popped? && f.Popped? {
      var d := Distance(max, s.last, e.index);
      DistanceIs(max, s.last, d, e.index);
      DistanceIs(max, s.last, d, f.index);
    }
  }

  /** Indexes are skipped exactly when the stock is full and lacks the successor. */
  lemma JumpOnlyWhenFull(max: int, capacity: nat, s: State, i: int, frame: Frame, t: State)
    requires Sound(max, capacity, s) && Step(max, capacity, s, Popped(i, frame), t)
    ensures i != Wrap(max, s.last + 1) <==> |s.stock| == capacity && Wrap(max, s.last + 1) !in s.stock
  {
    var next := Wrap(max, s.last + 1);
    DistanceIs(max, s.last, 0, next);
    DistanceIs(max, s.last, 0, i);
  }

  //////////////////////////////////////////////////////////////////////////////
  //
  // The search for the next index
  //
  //////////////////////////////////////////////////////////////////////////////

  /** After `gap` misses, each of them with a full stock, the search looks at index next. */
  ghost predicate Searching(max: int, capacity: nat, s: State, gap: int, next: int) {
    && Sound(max, capacity, s) && s.stock != map[]
    && 0 <= gap < max && next == Wrap(max, s.last + 1 + gap)
    && (forall j :: j in s.stock ==> gap <= Distance(max, s.last, j))
    && (gap > 0 ==> |s.stock| >= capacity)
  }

  lemma SoundRange(max: int, capacity: nat, s: State)
    requires Sound(max, capacity, s)
    ensures 0 < max && -1 <= s.last < max
  {}

  lemma SearchStart(max: int, capacity: nat, s: State)
    requires Sound(max, capacity, s) && |s.stock| > 0
    ensures Searching(max, capacity, s, 0, Wrap(max, s.last + 1))
  {
    hide Distance, Wrap;
  }

  lemma SearchInRange(max: int, capacity: nat, s: State, gap: int, next: int)
    requires Searching(max, capacity, s, gap, next)
    ensures 0 <= gap < max && 0 <= next < max
  {}

  lemma SearchFound(max: int, capacity: nat, s: State, gap: int, next: int)
    requires Searching(max, capacity, s, gap, next) && next in s.stock
    ensures Step(max, capacity, s, Popped(next, s.stock[next]), s.(last := next, stock := s.stock - {next}))
  {
    hide Distance, Wrap;
    DistanceIs(max, s.last, gap, next);
  }

  lemma SearchMiss(max: int, capacity: nat, s: State, gap: int, next: int)
    requires Searching(max, capacity, s, gap, next) && next !in s.stock && |s.stock| >= capacity
    ensures 0 <= next + 1 < 2 * max && Searching(max, capacity, s, gap + 1, Wrap(max, next + 1))
  {
    hide Distance, Wrap;
    forall j | j in s.stock ensures gap < Distance(max, s.last, j) {
      DistanceIs(max, s.last, gap, j);
    }
    var j := Element(s.stock.Keys);
    assert gap < Distance(max, s.last, j);
    WrapStep(max, s.last + 1 + gap);
  }

  lemma SearchStop(max: int, capacity: nat, s: State, gap: int, next: int)
    requires Searching(max, capacity, s, gap, next) && next !in s.stock && |s.stock| < capacity
    ensures Step(max, capacity, s, Nothing, s)
  {
    hide Distance, Wrap;
  }

  lemma EmptyStock(max: int, capacity: nat, s: State)
    requires Sound(max, capacity, s) && |s.stock| == 0
    ensures Step(max, capacity, s, Nothing, s)
  {}

  //////////////////////////////////////////////////////////////////////////////
  //
  // Runs
  //
  //////////////////////////////////////////////////////////////////////////////

  /** A run: the states it passes through and the events between them. */
  ghost predicate Run(max: int, capacity: nat, ss: seq<State>, es: seq<Event>) {
    && 0 < max
    && |ss| == |es| + 1
    && ss[0] == State(-1, map[], 0, 0)
    && forall n :: 0 <= n < |es| && Sound(max, capacity, ss[n]) ==> Step(max, capacity, ss[n], es[n], ss[n + 1])
  }

  function Pops(es: seq<Event>): nat {
    if es == [] then 0 else Pops(es[..|es| - 1]) + if es[|es| - 1].Popped? then 1 else 0
  }

  /** The frames popped in a run. */
  function Fetched(es: seq<Event>): (fs: seq<Part>)
    ensures |fs| == Pops(es)
  {
    if es == [] then []
    else
      var e := es[|es| - 1];
      Fetched(es[..|es| - 1]) + if e.Popped? then [Part(e.index, e.frame)] else []
  }

  lemma RunGrows(max: int, capacity: nat, ss: seq<State>, es: seq<Event>, e: Event, t: State)
    requires Run(max, capacity, ss, es)
    requires Sound(max, capacity, ss[|es|]) && Step(max, capacity, ss[|es|], e, t)
    ensures Run(max, capacity, ss + [t], es + [e])
  {
    hide Step, Sound;
  }

  lemma FetchedGrows(es: seq<Event>, e: Event)
    ensures Fetched(es + [e]) == Fetched(es) + if e.Popped? then [Part(e.index, e.frame)] else []
  {
    assert (es + [e])[..|es|] == es;
  }

  //////////////////////////////////////////////////////////////////////////////
  //
  // The queue
  //
  //////////////////////////////////////////////////////////////////////////////

  class OrderedQueue {
    const maxIndex: int
    const capacity: nat
    var duplicated: nat
    var overruns: nat
    var lastIndexPop: int
    var stock: map<int, Frame>

    // everything that has happened to the queue
    ghost var states: seq<State>
    ghost var events: seq<Event>

    ghost function Model(): State
      reads this
    {
      State(lastIndexPop, stock, duplicated, overruns)
    }

    ghost predicate Valid()
      reads this
    {
      && maxIndex <= 0x4000_0000 && Sound(maxIndex, capacity, Model())
      && Run(maxIndex, capacity, states, events) && states[|events|] == Model()
    }

    constructor (max: int, cap: nat)
      requires 0 < max <= 0x4000_0000
      ensures Valid() && maxIndex == max && capacity == cap
      ensures Model() == State(-1, map[], 0, 0) && events == []
    {
      maxIndex, capacity := max, cap;
      states, events := [State(-1, map[], 0, 0)], [];
      duplicated, overruns, lastIndexPop, stock := 0, 0, -1, map[];
    }

    method Push(number: int, frame: Frame)
      requires Valid() && -maxIndex <= number < 0x4000_0000
      modifies this
      ensures Valid() && Step(maxIndex, capacity, old(Model()), Pushed(number, frame), Model())
      ensures events == old(events) + [Pushed(number, frame)]
    {
      hide Wrap, Run;
      var index := Index(maxIndex, number);
      if lastIndexPop == -1 {
        lastIndexPop := Wrap(maxIndex, index + maxIndex - 1);
      }
      if |stock| < capacity {
        if index in stock {
          duplicated := duplicated + 1;
        }
        stock := stock[index := frame];
      } else {
        overruns := overruns + 1;
      }
      Record(old(Model()), Pushed(number, frame));
    }

    /** Notes an event that took the queue from state s to its present one. */
    ghost method Record(s: State, e: Event)
      requires maxIndex <= 0x4000_0000 && Sound(maxIndex, capacity, s) && Step(maxIndex, capacity, s, e, Model())
      requires Run(maxIndex, capacity, states, events) && states[|events|] == s
      modifies this`states, this`events
      ensures Valid() && events == old(events) + [e]
    {
      hide Sound, Step;
      RunGrows(maxIndex, capacity, states, events, e, Model());
      StepSound(maxIndex, capacity, s, e, Model());
      states, events := states + [Model()], events + [e];
    }

    /** The out-parameter keeps the caller's index when no frame is found. */
    method Pop(previous: int) returns (frame: Frame, returnedIndex: int, ghost event: Event)
      requires Valid()
      modifies this
      ensures Valid() && !event.Pushed? && Step(maxIndex, capacity, old(Model()), event, Model())
      ensures events == old(events) + [event]
      ensures event.Popped? ==> frame == event.frame && returnedIndex == event.index
      ensures event.Nothing? ==> frame == NO_FRAME && returnedIndex == previous
    {
      hide Wrap, Run, Searching, Step, Sound;
      frame, returnedIndex, event := NO_FRAME, previous, Nothing;
      if |stock| > 0 {
        assert 0 < maxIndex && 0 <= lastIndexPop + 1 < 2 * maxIndex by {
          SoundRange(maxIndex, capacity, Model());
        }
        var nextIndex := Wrap(maxIndex, lastIndexPop + 1);
        var found, gap := false, 0;
        SearchStart(maxIndex, capacity, Model());
        while !found
          invariant states == old(states) && events == old(events)
          invariant !found ==> Model() == old(Model()) && Searching(maxIndex, capacity, Model(), gap, nextIndex)
          invariant !found ==> frame == NO_FRAME && returnedIndex == previous && event.Nothing?
          invariant found ==> event.Popped? && Step(maxIndex, capacity, old(Model()), event, Model())
          invariant found ==> frame == event.frame && returnedIndex == event.index
          decreases if found then 0 else 1 + maxIndex - gap
        {
          SearchInRange(maxIndex, capacity, Model(), gap, nextIndex);
          if nextIndex in stock {
            SearchFound(maxIndex, capacity, Model(), gap, nextIndex);
            frame := stock[nextIndex];
            event := Popped(nextIndex, frame);
            stock := stock - {nextIndex};
            lastIndexPop := nextIndex;
            returnedIndex := lastIndexPop;
            found := true;
          } else if |stock| < capacity {
            SearchStop(maxIndex, capacity, Model(), gap, nextIndex);
            break;
          } else {
            SearchMiss(maxIndex, capacity, Model(), gap, nextIndex);
            gap := gap + 1;
            nextIndex := Wrap(maxIndex, nextIndex + 1);
          }
        }
      } else {
        EmptyStock(maxIndex, capacity, Model());
      }
      Record(old(Model()), event);
    }
  }
}
