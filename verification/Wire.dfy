/**
  Streams made of whole frames: a stream is decoded frame by frame, masks do not show, every stream splits into
  frames in one way, and nothing is lost on the way.
 */
module Wire {
  import opened Bytes
  import opened Wrappers
  import opened Decoders
  import opened Opcodes
  import opened Frame
  import opened Messages
  import opened Mask
  import opened Codec
  import opened Streams
  import opened Utf8

  /** A frame: its header, and its payload as it is before masking. */
  datatype WireFrame = WireFrame(header: FrameHeader, data: seq<byte>) {
    /** The header can be printed, and tells the length of the payload, if not always in the form it should. */
    predicate Valid() {
      Fits(header) && LengthValue(header.dataLen) == |data|
    }

    function ToBytes(): (s: seq<byte>)
      ensures |s| == HeaderLen(header) + |data|
    {
      HeaderBytes(header) + Unmasked(header, data)
    }

    predicate IsControl() {
      header.opcode == 8 || header.opcode == 9 || header.opcode == 10
    }
  }

  /** Section 5.2 of RFC 6455: the length is below 2^63 and given in the shortest form. */
  predicate LengthRight(f: WireFrame) {
    match f.header.dataLen
    case Small(n) => |f.data| <= 125 && ToInt(n) == |f.data|
    case Medium(n) => 126 <= |f.data| <= 65535 && n == |f.data|
    case Large(n) => 65536 <= |f.data| < 0x8000_0000_0000_0000 && n == |f.data|
  }

  lemma CanonicalIffTryUsize(f: WireFrame)
    requires f.Valid()
    ensures TryUsize(f.header.dataLen).Ok? <==> LengthRight(f)
  {
    hide ToByte, ToInt;
  }

  ghost predicate AllValid(fs: seq<WireFrame>) {
    forall f :: f in fs ==> f.Valid()
  }

  function WireBytes(fs: seq<WireFrame>): seq<byte> {
    if fs == [] then [] else fs[0].ToBytes() + WireBytes(fs[1..])
  }

  // ---------- frames and the bytes they come from ----------

  lemma UnmaskedTwice(header: FrameHeader, data: seq<byte>)
    ensures Unmasked(header, Unmasked(header, data)) == data
  {
    if header.mask.Some? {
      MaskedTwice(data, WordBytes(header.mask.value));
    }
  }

  /** A frame at the front of a buffer is read as itself, or is refused for the form of its length alone. */
  lemma ReadOfToBytes(f: WireFrame, rest: seq<byte>)
    requires f.Valid()
    ensures ReadFrame(f.ToBytes() + rest) ==
      match TryUsize(f.header.dataLen)
      case Err(e) => Unreadable(BadLength(e))
      case Ok(_) => Complete(f.header, Unmasked(f.header, f.data), |f.ToBytes()|)
  {
    hide ParseSlice, HeaderLen, HeaderBytes, Unmasked, Fits;
    var src := f.ToBytes() + rest;
    ParseOfHeaderBytes(f.header, Unmasked(f.header, f.data) + rest);
    assert src == HeaderBytes(f.header) + (Unmasked(f.header, f.data) + rest);
    assert src[HeaderLen(f.header)..|f.ToBytes()|] == Unmasked(f.header, f.data);
  }

  /** A frame that is read is the frame whose bytes were read. */
  lemma ToBytesOfRead(src: seq<byte>)
    requires ReadFrame(src).Complete?
    ensures
      var Complete(header, payload, frameLen) := ReadFrame(src);
      var f := WireFrame(header, Unmasked(header, payload));
      f.Valid() && f.ToBytes() == src[..frameLen]
  {
    hide ParseSlice, HeaderLen, HeaderBytes, Unmasked, Fits;
    var Complete(header, payload, frameLen) := ReadFrame(src);
    HeaderBytesOfParse(src);
    UnmaskedTwice(header, payload);
    assert src[..frameLen] == src[..ParseSlice(src).value.1] + payload;
  }

  // ---------- decoding frame by frame ----------

  /** What one frame does to the decoder. */
  function StepFrame(state: CodecState, f: WireFrame): StepResult {
    match TryUsize(f.header.dataLen)
    case Err(e) => Reject(BadLength(e))
    case Ok(_) => Step(state, f.header, f.data)
  }

  /** A run over frames ends after them all, or at an error, with the frames that are still in the buffer. */
  datatype FrameEnding = Between(state: CodecState) | Broken(error: CodecError, state: CodecState, left: seq<WireFrame>)

  datatype FrameRun = FrameRun(messages: seq<Message>, ending: FrameEnding)

  function PrependMessage(m: Message, run: FrameRun): FrameRun {
    FrameRun([m] + run.messages, run.ending)
  }

  /** A frame refused for its length stays in the buffer, the header included; any other has been taken off. */
  function LeftAt(e: CodecError, fs: seq<WireFrame>): seq<WireFrame>
    requires fs != []
  {
    if e.BadLength? then fs else fs[1..]
  }

  lemma StepHasLength(state: CodecState, header: FrameHeader, data: seq<byte>)
    ensures Step(state, header, data).Reject? ==> !Step(state, header, data).error.BadLength?
  {
  }

  function RunFrames(state: CodecState, fs: seq<WireFrame>): (run: FrameRun)
    decreases |fs|
  {
    if fs == [] then FrameRun([], Between(state)) else
      match StepFrame(state, fs[0])
      case Reject(e) => FrameRun([], Broken(e, None, LeftAt(e, fs)))
      case Continue(next) => RunFrames(next, fs[1..])
      case Emit(opcode, data, next) =>
        match New(opcode, data)
        case Err(e) => FrameRun([], Broken(BadMessage(e), next, fs[1..]))
        case Ok(m) => PrependMessage(m, RunFrames(next, fs[1..]))
  }

  lemma TurnOfToBytes(state: CodecState, f: WireFrame, rest: seq<byte>)
    requires f.Valid()
    ensures
      var src := f.ToBytes() + rest;
      match StepFrame(state, f)
      case Continue(next) => Turn(state, src) == Again(next, rest)
      case Emit(opcode, data, next) => Turn(state, src) == Stop(Finish(opcode, data, next, rest))
      case Reject(e) => Turn(state, src) == Stop(Fail(e, None, if e.BadLength? then src else rest))
  {
    hide ReadFrame, Step, Unmasked, New, HeaderBytes, HeaderLen, Fits;
    ReadOfToBytes(f, rest);
    UnmaskedTwice(f.header, f.data);
    StepHasLength(state, f.header, f.data);
    assert (f.ToBytes() + rest)[|f.ToBytes()|..] == rest;
  }

  /** A stream that starts with whole frames is decoded as those frames one by one, and then the rest. */
  lemma {:induction false} RunAllOfFrames(state: CodecState, fs: seq<WireFrame>, rest: seq<byte>)
    requires AllValid(fs)
    ensures
      var run := RunFrames(state, fs);
      var whole := RunAll(state, WireBytes(fs) + rest);
      match run.ending
      case Between(next) => whole == Prepend(run.messages, RunAll(next, rest))
      case Broken(e, next, left) => whole == Run(run.messages, Failed(e, next, WireBytes(left) + rest))
    decreases |fs|
  {
    hide Turn, StepFrame, New;
    if fs == [] {
      assert WireBytes(fs) + rest == rest;
      PrependNone(RunAll(state, rest));
    } else {
      var tail := WireBytes(fs[1..]) + rest;
      var src := fs[0].ToBytes() + tail;
      assert WireBytes(fs) + rest == src;
      TurnOfToBytes(state, fs[0], tail);
      RunAllTurn(state, src);
      match StepFrame(state, fs[0])
      case Reject(_) =>
      case Continue(next) => RunAllOfFrames(next, fs[1..], rest);
      case Emit(opcode, data, next) =>
        if New(opcode, data).Ok? {
          RunAllOfFrames(next, fs[1..], rest);
          var run := RunFrames(next, fs[1..]);
          if run.ending.Between? {
            PrependTwice([New(opcode, data).value], run.messages, RunAll(run.ending.state, rest));
          }
        }
    }
  }

  // ---------- masks do not show ----------

  function Remasked(f: WireFrame, mask: Option<bv32>): WireFrame {
    f.(header := f.header.(mask := mask))
  }

  /** `gs` is `fs` with each frame's mask replaced by another, added or taken away. */
  ghost predicate SameButMasks(fs: seq<WireFrame>, gs: seq<WireFrame>) {
    |fs| == |gs| && forall i :: 0 <= i < |fs| ==> gs[i] == Remasked(fs[i], gs[i].header.mask)
  }

  ghost predicate SameFrameRun(r: FrameRun, q: FrameRun) {
    && r.messages == q.messages
    && (r.ending.Between? ==> r.ending == q.ending)
    && (r.ending.Broken? ==>
          && q.ending.Broken? && r.ending.error == q.ending.error && r.ending.state == q.ending.state
          && SameButMasks(r.ending.left, q.ending.left))
  }

  lemma {:induction false} RunFramesIgnoresMasks(state: CodecState, fs: seq<WireFrame>, gs: seq<WireFrame>)
    requires SameButMasks(fs, gs)
    ensures SameFrameRun(RunFrames(state, fs), RunFrames(state, gs))
    decreases |fs|
  {
    if fs != [] {
      assert StepFrame(state, gs[0]) == StepFrame(state, fs[0]);
      hide StepFrame, New;
      match StepFrame(state, fs[0])
      case Reject(_) =>
      case Continue(next) => RunFramesIgnoresMasks(next, fs[1..], gs[1..]);
      case Emit(opcode, data, next) => RunFramesIgnoresMasks(next, fs[1..], gs[1..]);
    }
  }

  /**
    Replacing the mask of every frame of a stream changes neither the messages, nor the first error, nor the
    state and the bytes that are left when the stream ends.
   */
  lemma MasksDoNotShow(state: CodecState, fs: seq<WireFrame>, gs: seq<WireFrame>, rest: seq<byte>)
    requires AllValid(fs) && SameButMasks(fs, gs)
    ensures SameRun(RunAll(state, WireBytes(fs) + rest), RunAll(state, WireBytes(gs) + rest))
  {
    forall g | g in gs
      ensures g.Valid()
    {
      var i :| 0 <= i < |gs| && gs[i] == g;
      assert fs[i] in fs && fs[i].Valid();
    }
    RunFramesIgnoresMasks(state, fs, gs);
    RunAllOfFrames(state, fs, rest);
    RunAllOfFrames(state, gs, rest);
    hide RunFrames, RunAll;
  }

  // ---------- every stream is frames and a remainder ----------

  /** The complete frames at the start of a stream, and the bytes after them. */
  function SplitFrames(src: seq<byte>): (r: (seq<WireFrame>, seq<byte>))
    decreases |src|
  {
    match ReadFrame(src)
    case Complete(header, payload, frameLen) =>
      var (fs, rest) := SplitFrames(src[frameLen..]);
      ([WireFrame(header, Unmasked(header, payload))] + fs, rest)
    case _ => ([], src)
  }

  lemma WireBytesCons(f: WireFrame, fs: seq<WireFrame>)
    ensures WireBytes([f] + fs) == f.ToBytes() + WireBytes(fs)
  {
    assert ([f] + fs)[1..] == fs;
  }

  lemma AllValidCons(f: WireFrame, fs: seq<WireFrame>)
    requires f.Valid() && AllValid(fs)
    ensures AllValid([f] + fs)
  {
  }

  lemma SplitFramesStep(src: seq<byte>)
    ensures !ReadFrame(src).Complete? ==> SplitFrames(src) == ([], src)
    ensures ReadFrame(src).Complete? ==>
      var Complete(header, payload, frameLen) := ReadFrame(src);
      var (fs, rest) := SplitFrames(src[frameLen..]);
      SplitFrames(src) == ([WireFrame(header, Unmasked(header, payload))] + fs, rest)
  {
    hide ReadFrame, Unmasked;
  }

  lemma SplitFramesNone(src: seq<byte>)
    ensures AllValid([]) && WireBytes([]) + src == src
  {
  }

  lemma {:induction false} SplitFramesJoins(src: seq<byte>)
    ensures AllValid(SplitFrames(src).0)
    ensures WireBytes(SplitFrames(src).0) + SplitFrames(src).1 == src
    ensures !ReadFrame(SplitFrames(src).1).Complete?
    decreases |src|
  {
    hide *;
    SplitFramesStep(src);
    if ReadFrame(src).Complete? {
      var Complete(header, payload, frameLen) := ReadFrame(src);
      var f, tail := WireFrame(header, Unmasked(header, payload)), src[frameLen..];
      var (fs, rest) := SplitFrames(tail);
      SplitFramesJoins(tail);
      ToBytesOfRead(src);
      AllValidCons(f, fs);
      WireBytesCons(f, fs);
      assert f.ToBytes() + WireBytes(fs) + rest == f.ToBytes() + (WireBytes(fs) + rest);
      assert src == src[..frameLen] + tail;
    } else {
      SplitFramesNone(src);
    }
  }

  /** Splitting the bytes of frames whose lengths are in the right form gives the frames back. */
  lemma {:induction false} SplitOfWireBytes(fs: seq<WireFrame>)
    requires AllValid(fs)
    requires forall f :: f in fs ==> TryUsize(f.header.dataLen).Ok?
    ensures SplitFrames(WireBytes(fs)) == (fs, [])
    decreases |fs|
  {
    hide ReadFrame, Unmasked, Fits, HeaderBytes, TryU64;
    if fs == [] {
      assert ReadFrame([]).NeedMore? by { ReadNothing(); }
    } else {
      var tail := WireBytes(fs[1..]);
      var src := fs[0].ToBytes() + tail;
      ReadOfToBytes(fs[0], tail);
      UnmaskedTwice(fs[0].header, fs[0].data);
      assert src[|fs[0].ToBytes()|..] == tail;
      SplitOfWireBytes(fs[1..]);
      assert fs == [fs[0]] + fs[1..];
    }
  }

  lemma ReadNothing()
    ensures ReadFrame([]) == NeedMore
  {
  }

  // ---------- what every state and every message satisfies ----------

  /** Only data messages are ever left half received. */
  predicate GoodState(state: CodecState) {
    state.Some? ==> state.value.opcode.Text? || state.value.opcode.Binary?
  }

  lemma StepIsSafe(state: CodecState, header: FrameHeader, data: seq<byte>)
    requires GoodState(state)
    ensures
      match Step(state, header, data)
      case Continue(next) => GoodState(next)
      case Emit(opcode, payload, next) => GoodState(next) && (opcode.IsControl() ==> |payload| <= MAX_CONTROL_PAYLOAD)
      case Reject(e) => !e.BadMessage?
  {
  }

  /**
    Whatever bytes arrive, the codec goes from good states to good states and hands out only well-formed messages;
    an error forgets the half-received message, unless all that is wrong is the text of a complete message.
   */
  lemma {:induction false} DecodedIsSafe(state: CodecState, src: seq<byte>)
    requires GoodState(state)
    ensures GoodState(Decoded(state, src).state)
    ensures Decoded(state, src).Item? ==> WellFormed(Decoded(state, src).item)
    ensures Decoded(state, src).Fail? && !Decoded(state, src).error.BadMessage? ==> Decoded(state, src).state == None
    decreases |src|
  {
    hide ReadFrame, Unmasked, Step, ValidUtf8;
    if ReadFrame(src).Complete? {
      var Complete(header, payload, _) := ReadFrame(src);
      StepIsSafe(state, header, Unmasked(header, payload));
      if Turn(state, src).Again? {
        DecodedIsSafe(Turn(state, src).state, Turn(state, src).rest);
      }
    }
  }

  /** So it is over whole runs: every reachable state is good and every message handed out is well-formed. */
  lemma {:induction false} RunIsSafe(state: CodecState, src: seq<byte>)
    requires GoodState(state)
    ensures GoodState(RunAll(state, src).ending.state)
    ensures forall m :: m in RunAll(state, src).messages ==> WellFormed(m)
    decreases |src|
  {
    hide Decoded, WellFormed;
    DecodedIsSafe(state, src);
    if Decoded(state, src).Item? {
      RunIsSafe(Decoded(state, src).state, Decoded(state, src).rest);
    }
  }

  // ---------- conservation ----------

  /** The payload bytes in data frames. */
  function DataInFrames(fs: seq<WireFrame>): nat {
    if fs == [] then 0 else (if fs[0].IsControl() then 0 else |fs[0].data|) + DataInFrames(fs[1..])
  }

  /** The bytes in data messages. */
  function DataInMessages(ms: seq<Message>): nat {
    if ms == [] then 0 else (if ms[0].opcode.IsControl() then 0 else |ms[0].data|) + DataInMessages(ms[1..])
  }

  function DataInState(state: CodecState): nat {
    if state.Some? then |state.value.data| else 0
  }

  lemma StepConserves(state: CodecState, f: WireFrame)
    requires GoodState(state)
    ensures
      match StepFrame(state, f)
      case Continue(next) =>
        GoodState(next) && !f.IsControl() && DataInState(state) + |f.data| == DataInState(next)
      case Emit(opcode, data, next) =>
        GoodState(next) && opcode.IsControl() == f.IsControl()
        && DataInState(state) + (if f.IsControl() then 0 else |f.data|)
           == (if opcode.IsControl() then 0 else |data|) + DataInState(next)
      case Reject(_) => true
  {
  }

  lemma {:induction false} RunFramesConserves(state: CodecState, fs: seq<WireFrame>)
    requires GoodState(state) && RunFrames(state, fs).ending.Between?
    ensures
      var run := RunFrames(state, fs);
      DataInState(state) + DataInFrames(fs) == DataInMessages(run.messages) + DataInState(run.ending.state)
    decreases |fs|
  {
    hide StepFrame, ValidUtf8;
    if fs != [] {
      StepConserves(state, fs[0]);
      match StepFrame(state, fs[0])
      case Reject(_) =>
      case Continue(next) => RunFramesConserves(next, fs[1..]);
      case Emit(_, _, next) =>
        RunFramesConserves(next, fs[1..]);
        assert RunFrames(state, fs).messages[1..] == RunFrames(next, fs[1..]).messages;
    }
  }

  /**
    Over any error-free run the bytes fed are those of the frames consumed and those still buffered, and the payload
    bytes of the data frames are those of the messages handed out and of the message still half received.
   */
  lemma {:induction false} Conservation(src: seq<byte>)
    requires RunAll(None, src).ending.Waiting?
    ensures
      var run := RunAll(None, src);
      var (fs, rest) := SplitFrames(src);
      && run.ending.rest == rest
      && |src| == |WireBytes(fs)| + |run.ending.rest|
      && DataInFrames(fs) == DataInMessages(run.messages) + DataInState(run.ending.state)
  {
    hide Decoded, RunFrames, ReadFrame;
    var (fs, rest) := SplitFrames(src);
    SplitFramesJoins(src);
    RunAllOfFrames(None, fs, rest);
    var run := RunFrames(None, fs);
    assert run.messages + [] == run.messages;
    RunFramesConserves(None, fs);
    RemainderWaits(run.ending.state, rest);
  }

  lemma RemainderWaits(state: CodecState, rest: seq<byte>)
    requires !ReadFrame(rest).Complete?
    ensures RunAll(state, rest).messages == [] && RunAll(state, rest).ending.rest == rest
    ensures RunAll(state, rest).ending.Waiting? ==> RunAll(state, rest).ending.state == state
  {
    hide ReadFrame;
  }
}
