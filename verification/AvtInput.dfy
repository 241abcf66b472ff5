/** The superframe assembler: from datagrams of an encoder to DAB+ superframes with their time. */
module AvtInput {
  import opened Arithmetic
  import opened Bytes
  import opened Datagrams
  import opened OrderedQueues
  import opened QueueRuns
  import opened Superframes

  ghost predicate Sized(parts: seq<Part>, size: nat) {
    forall i :: 0 <= i < |parts| ==> |parts[i].frame.buf| == size
  }

  lemma {:induction false} PayloadSize(parts: seq<Part>, size: nat)
    requires Sized(parts, size)
    ensures |Payload(parts)| == |parts| * size
  {
    if parts != [] {
      PayloadSize(parts[..|parts| - 1], size);
      OneMore(|parts| - 1, size);
    }
  }

  /** Only frames of the given size are pushed. */
  ghost predicate PushSized(es: seq<Event>, size: nat) {
    forall i :: 0 <= i < |es| && es[i].Pushed? ==> |es[i].frame.buf| == size
  }

  /** A popped frame was pushed, so it has that size. */
  lemma PopSized(max: int, capacity: nat, ss: seq<State>, es: seq<Event>, n: nat, size: nat)
    requires Run(max, capacity, ss, es) && PushSized(es, size) && n < |es| && es[n].Popped?
    ensures |es[n].frame.buf| == size
  {
    hide Run;
    var k := PopOrigin(max, capacity, ss, es, n);
    assert es[k].Pushed?;
  }

  /** What an event adds to the parts and so to the superframes. */
  lemma MadeGrows(es: seq<Event>, e: Event)
    ensures Assemble(Fetched(es + [e]))
         == if e.Popped? then Next(Assemble(Fetched(es)), Part(e.index, e.frame), |Fetched(es)|)
            else Assemble(Fetched(es))
  {
    hide Next;
    FetchedGrows(es, e);
    if e.Popped? {
      assert Fetched(es + [e])[..|Fetched(es)|] == Fetched(es);
    } else {
      assert Fetched(es + [e]) == Fetched(es);
    }
  }

  lemma NothingMade()
    ensures Assemble(Fetched([])) == Progress(UNALIGNED, [], 0)
  {}

  lemma OneMoreFits(n: nat, size: nat)
    requires n < 5
    ensures n * size + size == (n + 1) * size <= 5 * size
  {}

  /** n parts of a bytes, and what is missing to five parts of b bytes. */
  lemma RestFits(n: nat, a: nat, b: nat)
    ensures n * a + (5 - n) * b <= 5 * b <==> n == 0 || a <= b
  {
    assert (5 - n) * b == 5 * b - n * b;
    if n > 0 && a > b {
      assert n * (a - b) > 0;
    } else if n > 0 {
      assert n * (b - a) >= 0;
    }
  }

  function CDiv(a: int, b: int): int
    requires b > 0
  {
    if a >= 0 then a / b else -(-a / b)
  }

  /** The parameters that DAB+ admits. */
  predicate Admissible(bitrate: int, channels: int, sampleRate: int) {
    && bitrate % 8 == 0 && 8 <= bitrate <= 192
    && (sampleRate == 48000 || sampleRate == 32000)
    && (channels == 1 || channels == 2)
  }

  /** The encoder's modes: mono and stereo, each with SBR, and stereo with PS, which implies SBR. */
  function AudioMode(channels: int, sbr: bool, ps: bool): nat {
    if channels == 1 then (if sbr then 1 else 0) else if ps then 4 else if sbr then 3 else 2
  }

  /** The message that sets the parameters of the encoder. */
  function ControlMessage(subChannelIndex: nat, audioMode: nat, dac: nat, monoMode: nat): seq<Byte> {
    [Low(0xFD), Low(0x07), Low(subChannelIndex), Low(audioMode), Low(dac), Low(monoMode)]
  }

  /** The message in the encoder's terms: command 0x07, bit rate, one of five modes, sample rate, both channels. */
  lemma ControlMessageBack(bitrate: int, channels: int, sampleRate: int, sbr: bool, ps: bool)
    requires Admissible(bitrate, channels, sampleRate)
    ensures var m := ControlMessage(bitrate / 8, AudioMode(channels, sbr, ps), if sampleRate == 48000 then 1 else 0, 0);
            && |m| == 6 && Value(m[0]) == 0xFD && Value(m[1]) == 0x07 && Value(m[2]) * 8 == bitrate
            && (channels == 1 && !sbr ==> Value(m[3]) == 0)
            && (channels == 1 && sbr ==> Value(m[3]) == 1)
            && (channels == 2 && !sbr && !ps ==> Value(m[3]) == 2)
            && (channels == 2 && sbr && !ps ==> Value(m[3]) == 3)
            && (channels == 2 && ps ==> Value(m[3]) == 4)
            && (sampleRate == 32000 ==> Value(m[4]) == 0) && (sampleRate == 48000 ==> Value(m[4]) == 1)
            && Value(m[5]) == 0
  {
    hide Low, Value;
    LowValue(0xFD);
    LowValue(0x07);
    LowValue(bitrate / 8);
    LowValue(AudioMode(channels, sbr, ps));
    LowValue(if sampleRate == 48000 then 1 else 0);
    LowValue(0);
  }

  class AVTInput {
    const jitterBufferSize: nat
    const hasOutput: bool
    const monoMode: nat := 0
    var ordered: OrderedQueue
    var subChannelIndex: int
    var bitRate: int
    var audioMode: nat
    var dac: nat
    var dab24msFrameSize: nat
    var frameAligned: bool
    var currentFrame: array<Byte>
    var nbFrames: nat
    var expectedFrameIndex: int
    var frameZeroTimestamp: int
    var currentFrameSize: nat

    // what has arrived, the parts in the buffer, and how many superframes have been handed out
    ghost var received: seq<Datagram>
    ghost var parts: seq<Part>
    ghost var delivered: nat

    ghost predicate Untouched()
      reads this
    {
      && nbFrames == 0 && currentFrameSize == 0 && !frameAligned && expectedFrameIndex == 0 && frameZeroTimestamp == 0
      && received == [] && parts == [] && delivered == 0
    }

    ghost function Assembled(): Assembly
      reads this
    {
      Assembly(frameAligned, parts, frameZeroTimestamp, expectedFrameIndex)
    }

    /** The superframes made of everything popped so far. */
    ghost function Made(): Progress
      reads this, ordered
    {
      Assemble(Fetched(ordered.events))
    }

    /** What every call of getNextFrame keeps, once the object has been configured. */
    ghost predicate Ready()
      reads this, ordered, currentFrame
    {
      QueueReady() && BufferReady() && ProgressReady()
    }

    ghost predicate QueueReady()
      reads this, ordered
    {
      && ordered.Valid() && ordered.maxIndex == MAX_QUEUE_SIZE && ordered.capacity == jitterBufferSize
      && PushSized(ordered.events, dab24msFrameSize)
      && PushedIn(ordered.events) == PushesOf(received, dab24msFrameSize)
    }

    /** The buffer holds the bytes of the parts and has room for five. */
    ghost predicate BufferReady()
      reads this, currentFrame
    {
      && 1 <= subChannelIndex <= 24 && dab24msFrameSize == 24 * subChannelIndex
      && currentFrame.Length == 120 * subChannelIndex
      && nbFrames == |parts| <= 5
      && Sized(parts, dab24msFrameSize)
      && currentFrameSize == nbFrames * dab24msFrameSize <= currentFrame.Length
      && currentFrame[..currentFrameSize] == Payload(parts)
    }

    /** The parts that are missing fit behind those in the buffer. */
    ghost predicate Room()
      reads this
    {
      nbFrames <= 5 && currentFrameSize + (5 - nbFrames) * dab24msFrameSize <= currentFrame.Length
    }

    lemma ReadyHasRoom()
      requires BufferReady()
      ensures Room()
    {
      hide Payload;
      RestFits(nbFrames, dab24msFrameSize, dab24msFrameSize);
    }

    /** With five parts in the buffer, the last superframe made still has to be handed out. */
    ghost predicate ProgressReady()
      reads this, ordered
    {
      var o := Made();
      if |parts| < 5 then o.assembly == Assembled() && delivered == |o.done|
      else
        && frameAligned && o.assembly == Assembled().(parts := [])
        && delivered + 1 == |o.done| && o.done[delivered].parts == parts && o.done[delivered].ts == frameZeroTimestamp
    }

    constructor (jitter: nat, output: bool)
      ensures Untouched() && jitterBufferSize == jitter && hasOutput == output
    {
      jitterBufferSize, hasOutput := jitter, output;
      ordered := new OrderedQueue(MAX_QUEUE_SIZE, jitter);
      subChannelIndex, bitRate, dab24msFrameSize, audioMode, dac := 8, 64000, 192, 0, 1;
      frameAligned, nbFrames, expectedFrameIndex, frameZeroTimestamp, currentFrameSize := false, 0, 0, 0, 0;
      currentFrame := new Byte[0];
      received, parts, delivered := [], [], 0;
    }

    /**
      Returns 0 exactly for admissible parameters; then a fresh object is ready, and the remote encoder
      is told if there is one.  The parts in the buffer of a used object stay counted: a further call leaves
      room for the missing ones exactly if there are none yet or the frame size does not shrink.
     */
    method SetDabPlusParameters(bitrate: int, channels: int, sampleRate: int, sbr: bool, ps: bool)
        returns (ret: int, message: seq<Byte>)
      requires -2147483 <= bitrate <= 2147483
      modifies this`ordered, this`subChannelIndex, this`bitRate, this`dab24msFrameSize, this`dac, this`audioMode,
               this`currentFrame
      ensures ret == 0 <==>
                && bitrate % 8 == 0 && 8 <= bitrate <= 192
                && (sampleRate == 48000 || sampleRate == 32000) && (channels == 1 || channels == 2)
      ensures ret == 0 ==> fresh(ordered) && fresh(currentFrame) && ordered.events == []
      ensures ret == 0 ==> subChannelIndex * 8 == bitrate
      ensures ret == 0 ==> audioMode == AudioMode(channels, sbr, ps) && dac == (if sampleRate == 48000 then 1 else 0)
      ensures ret == 0 && Untouched() ==> Ready()
      ensures ret == 0 && old(Ready()) ==>
                (Room() <==> old(nbFrames) == 0 || old(dab24msFrameSize) <= dab24msFrameSize)
      ensures ret == 0 && old(Ready() && nbFrames == 0) ==> BufferReady()
      ensures bitRate == bitrate * 1000 && dab24msFrameSize == (bitrate * 3) % 0x1_0000_0000_0000_0000
      ensures ret != 0 ==> ordered == old(ordered) && currentFrame == old(currentFrame)
      ensures message == if ret == 0 && hasOutput then
                           ControlMessage(bitrate / 8, AudioMode(channels, sbr, ps),
                                          if sampleRate == 48000 then 1 else 0, 0)
                         else []
    {
      hide Run, Sound, Low, Assemble, Fetched, Payload, ControlMessage, Untouched, QueueReady, ProgressReady, PushesOf,
           PushedIn;
      message := [];
      subChannelIndex := CDiv(bitrate, 8);
      bitRate := bitrate * 1000;
      dab24msFrameSize := (bitrate * 3) % 0x1_0000_0000_0000_0000;
      if subChannelIndex * 8 != bitrate || subChannelIndex < 1 || subChannelIndex > 24 {
        return 1, message;
      }
      if sampleRate != 48000 && sampleRate != 32000 {
        return 1, message;
      }
      dac := if sampleRate == 48000 then 1 else 0;
      if channels != 1 && channels != 2 {
        return 1, message;
      }
      audioMode := if channels == 1 then (if sbr then 1 else 0) else if ps then 4 else if sbr then 3 else 2;
      RestFits(nbFrames, old(dab24msFrameSize), dab24msFrameSize);
      ResetBuffers();
      message := SendCtrlMessage();
      return 0, message;
    }

    /** An empty queue, and a buffer for one superframe. */
    method ResetBuffers()
      requires 1 <= subChannelIndex <= 24 && dab24msFrameSize == 24 * subChannelIndex
      modifies this`ordered, this`currentFrame
      ensures fresh(ordered) && fresh(currentFrame) && ordered.events == []
      ensures currentFrame.Length == 120 * subChannelIndex
      ensures Untouched() ==> Ready()
      ensures parts == [] && nbFrames == currentFrameSize == 0 ==> BufferReady()
    {
      hide Run, Sound, Assemble, Fetched, Payload;
      ordered := new OrderedQueue(MAX_QUEUE_SIZE, jitterBufferSize);
      currentFrame := new Byte[subChannelIndex * 8 * 5 * 3](_ => ZERO);
      assert currentFrame[..0] == [];
      NoPayload();
      NothingMade();
    }

    /** What is sent to the encoder, if it has an address. */
    method SendCtrlMessage() returns (message: seq<Byte>)
      requires 0 <= subChannelIndex
      ensures message == if hasOutput then ControlMessage(subChannelIndex, audioMode, dac, monoMode) else []
    {
      message := [];
      if hasOutput {
        message := [Low(0xFD), Low(0x07), Low(subChannelIndex), Low(audioMode), Low(dac), Low(monoMode)];
      }
    }

    /** Stores a recognised frame of the configured size in the queue. */
    method ReadFrame(d: Datagram)
      requires Ready()
      modifies this`received, ordered
      ensures Ready() && ordered.events == old(ordered.events) + PushesOf([d], dab24msFrameSize)
      ensures received == old(received) + [d]
      ensures forall c: nat, frame: Frame :: c < 5000 && Encodes(d, c, frame) && |frame.buf| == dab24msFrameSize ==>
                ordered.events == old(ordered.events) + [Pushed(c, frame)]
      ensures d.Unrecognised? || |d.data| != dab24msFrameSize ==> ordered.events == old(ordered.events)
    {
      hide Run, Sound, Step, Payload, Assemble, Fetched, Encodes, FrameNumber, PushesOf, PushedIn;
      OneDatagram(received, d, dab24msFrameSize);
      received := received + [d];
      if d.Dab? && |d.data| == dab24msFrameSize {
        var frame := Frame(d.data, d.ts);
        MadeGrows(ordered.events, Pushed(FrameNumber(d.dfcth, d.dfctl), frame));
        PushedInGrows(ordered.events, Pushed(FrameNumber(d.dfcth, d.dfctl), frame));
        ordered.Push(FrameNumber(d.dfcth, d.dfctl), frame);
      }
    }

    /** One part: align, append or reset. */
    method TakePart(frame: Frame, returnedIndex: int)
      requires BufferReady() && nbFrames < 5 && |frame.buf| == dab24msFrameSize && 0 <= returnedIndex
      modifies this`frameAligned, this`nbFrames, this`expectedFrameIndex, this`frameZeroTimestamp,
               this`currentFrameSize, this`parts, currentFrame
      ensures BufferReady() && Assembled() == Accept(old(Assembled()), Part(returnedIndex, frame))
    {
      if !frameAligned {
        if returnedIndex % 5 == 0 {
          frameAligned := true;
          frameZeroTimestamp := frame.ts;
          Append(frame, returnedIndex);
          expectedFrameIndex := (returnedIndex + 1) % MAX_QUEUE_SIZE;
        }
      } else {
        if returnedIndex % 5 == nbFrames {
          Append(frame, returnedIndex);
          frameZeroTimestamp := frameZeroTimestamp + PART_MS;
          expectedFrameIndex := (returnedIndex + 1) % MAX_QUEUE_SIZE;
        } else {
          nbFrames := 0;
          currentFrameSize := 0;
          frameAligned := false;
          expectedFrameIndex := 0;
          parts := [];
          assert currentFrame[..0] == [];
        }
      }
    }

    /** The bytes of a part go behind those in the buffer. */
    method Append(frame: Frame, ghost index: int)
      requires BufferReady() && nbFrames < 5 && |frame.buf| == dab24msFrameSize
      modifies this`nbFrames, this`currentFrameSize, this`parts, currentFrame
      ensures BufferReady() && parts == old(parts) + [Part(index, frame)]
    {
      OneMoreFits(nbFrames, dab24msFrameSize);
      CopyTo(currentFrame, currentFrameSize, frame.buf);
      currentFrameSize := currentFrameSize + |frame.buf|;
      nbFrames := nbFrames + 1;
      parts := parts + [Part(index, frame)];
      assert parts[..|parts| - 1] == old(parts);
    }

    /** Without alignment the buffer is empty. */
    lemma UnalignedBufferIsEmpty()
      requires Ready() && !frameAligned
      ensures currentFrameSize == 0
    {
      hide Assemble, Fetched, Payload, Run;
      UnalignedIsEmpty(Fetched(ordered.events));
    }

    /** Reads what has arrived. */
    method ReadAll(arrivals: seq<Datagram>)
      requires Ready()
      modifies this`received, ordered
      ensures Ready() && ordered.events == old(ordered.events) + PushesOf(arrivals, dab24msFrameSize)
      ensures received == old(received) + arrivals
    {
      hide Run, Sound, Step, Payload, Assemble, Fetched, Ready, PushesOf, Encodes, FrameNumber;
      assert arrivals[..|arrivals|] == arrivals && arrivals[..0] == [];
      NothingPushed(dab24msFrameSize);
      for i := 0 to |arrivals|
        invariant Ready() && ordered.events == old(ordered.events) + PushesOf(arrivals[..i], dab24msFrameSize)
        invariant received == old(received) + arrivals[..i]
      {
        ReadFrame(arrivals[i]);
        PushesAppend(arrivals, i, dab24msFrameSize);
        assert arrivals[..i + 1] == arrivals[..i] + [arrivals[i]];
      }
    }

    /** One turn of the loop of getNextFrame: pop a part and, if there is one, take it. */
    method PopAndTake(previous: int) returns (found: bool, returnedIndex: int, ghost event: Event)
      requires Ready() && nbFrames < 5
      modifies this`frameAligned, this`nbFrames, this`expectedFrameIndex, this`frameZeroTimestamp,
               this`currentFrameSize, this`parts, ordered, currentFrame
      ensures Ready() && !event.Pushed? && ordered.events == old(ordered.events) + [event]
      ensures found == event.Popped?
      ensures found ==> |ordered.stock| < |old(ordered.stock)|
    {
      hide Run, Payload, Assemble, Fetched, Accept;
      var frame;
      ghost var es := ordered.events;
      frame, returnedIndex, event := ordered.Pop(previous);
      MadeGrows(es, event);
      PushedInGrows(es, event);
      if event.Popped? {
        PopSized(MAX_QUEUE_SIZE, jitterBufferSize, ordered.states, ordered.events, |es|, dab24msFrameSize);
        Remove(old(ordered.stock), event.index);
      }
      found := |frame.buf| > 0;
      if found {
        TakePart(frame, returnedIndex);
      }
    }

    /** Hands out a complete superframe if the caller's buffer has room for it. */
    method Deliver(buf: array<Byte>, previous: int) returns (nbBytes: nat, ts: int)
      requires Ready() && buf != currentFrame
      modifies this`nbFrames, this`currentFrameSize, this`parts, this`delivered, buf
      ensures Ready() && nbBytes <= buf.Length && buf[nbBytes..] == old(buf[nbBytes..])
      ensures nbBytes > 0 <==> old(nbFrames) == 5 && buf.Length >= 120 * subChannelIndex
      ensures nbBytes > 0 ==>
                && nbBytes == 120 * subChannelIndex && delivered == old(delivered) + 1 == |Made().done|
                && buf[..nbBytes] == Payload(Made().done[old(delivered)].parts)
                && ts == Made().done[old(delivered)].ts
      ensures nbBytes == 0 ==> delivered == old(delivered) && ts == previous
    {
      hide Run, Sound, Payload, Assemble, Fetched;
      nbBytes, ts := 0, previous;
      if nbFrames == 5 && currentFrameSize <= buf.Length {
        CopyTo(buf, 0, currentFrame[..currentFrameSize]);
        nbBytes := currentFrameSize;
        currentFrameSize := 0;
        nbFrames := 0;
        ts := frameZeroTimestamp;
        parts, delivered := [], delivered + 1;
        assert currentFrame[..0] == [] == Payload(parts) by {
          NoPayload();
        }
      }
    }

    lemma HandedOutAsSent(d: nat, nbBytes: nat, out: seq<Byte>, ts: int)
      requires Ready() && ordered.overruns == 0 && 2 * jitterBufferSize <= 5000
      requires if nbBytes > 0 then
                 |Made().done| == d + 1 && out == Payload(Made().done[d].parts) && ts == Made().done[d].ts
               else |Made().done| == d && ordered.events != [] && ordered.events[|ordered.events| - 1].Nothing?
      ensures AsSent(received, dab24msFrameSize, jitterBufferSize, d, nbBytes, out, ts)
    {
      hide Run, Sound, Payload, Assemble, Fetched, PushesOf, PushedIn, AsSent;
      RunStart(MAX_QUEUE_SIZE, jitterBufferSize, ordered.states, ordered.events);
      DeliveredAsSent(received, dab24msFrameSize, jitterBufferSize, ordered.states, ordered.events, d, nbBytes, out,
                      ts);
    }

    /**
      The next superframe, if the parts at hand make one: every popped part is taken, until five are
      in the buffer or the queue has nothing more to pop.
     */
    method GetNextFrame(arrivals: seq<Datagram>, buf: array<Byte>, previous: int) returns (nbBytes: nat, ts: int)
      requires Ready() && buf != currentFrame
      modifies this`frameAligned, this`nbFrames, this`expectedFrameIndex, this`frameZeroTimestamp,
               this`currentFrameSize, this`received, this`parts, this`delivered, ordered, currentFrame, buf
      ensures Ready() && received == old(received) + arrivals
      ensures nbBytes <= buf.Length && buf[nbBytes..] == old(buf[nbBytes..])
      ensures old(ordered.events) + PushesOf(arrivals, dab24msFrameSize) <= ordered.events
      ensures NoPushes(ordered.events, |old(ordered.events)| + |PushesOf(arrivals, dab24msFrameSize)|)
      ensures nbBytes > 0 ==>
                && nbBytes == 120 * subChannelIndex && delivered == old(delivered) + 1 == |Made().done|
                && buf[..nbBytes] == Payload(Made().done[old(delivered)].parts)
                && ts == Made().done[old(delivered)].ts
      ensures nbBytes == 0 ==> delivered == old(delivered) && ts == previous
      ensures nbBytes == 0 && buf.Length >= 120 * subChannelIndex ==>
                ordered.events != [] && ordered.events[|ordered.events| - 1].Nothing? && |Made().done| == delivered
      ensures ordered.overruns == 0 && 2 * jitterBufferSize <= 5000 && buf.Length >= 120 * subChannelIndex ==>
                AsSent(received, dab24msFrameSize, jitterBufferSize, old(delivered), nbBytes, buf[..nbBytes], ts)
    {
      hide Run, Sound, Step, Payload, Assemble, Fetched, PushesOf, Accept, PushedIn, AsSent, Sized, PushSized;
      ghost var pushes := PushesOf(arrivals, dab24msFrameSize);
      ReadAll(arrivals);
      var returnedIndex := -1;
      while nbFrames < 5
        invariant Ready() && buf[..] == old(buf[..]) && delivered == old(delivered)
        invariant received == old(received) + arrivals
        invariant old(ordered.events) + pushes <= ordered.events
        invariant NoPushes(ordered.events, |old(ordered.events)| + |pushes|)
        decreases |ordered.stock|
      {
        var found;
        ghost var event;
        found, returnedIndex, event := PopAndTake(returnedIndex);
        if !found {
          break;
        }
      }
      nbBytes, ts := Deliver(buf, previous);
      if ordered.overruns == 0 && 2 * jitterBufferSize <= 5000 && buf.Length >= 120 * subChannelIndex {
        HandedOutAsSent(old(delivered), nbBytes, buf[..nbBytes], ts);
      }
    }
  }

  ghost predicate NoPushes(es: seq<Event>, from: nat) {
    forall i :: from <= i < |es| ==> !es[i].Pushed?
  }

  /** memcpy. */
  method CopyTo(dst: array<Byte>, at: nat, bytes: seq<Byte>)
    requires at + |bytes| <= dst.Length
    modifies dst
    ensures dst[..at + |bytes|] == old(dst[..at]) + bytes
    ensures dst[at + |bytes|..] == old(dst[at + |bytes|..])
  {
    forall i | 0 <= i < |bytes| {
      dst[at + i] := bytes[i];
    }
  }
}
