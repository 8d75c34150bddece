/**
  Decoding whole streams: where a stream is cut makes no difference, and what the arithmetic on lengths can reach.
 */
module Streams {
  import opened Bytes
  import opened Wrappers
  import opened Decoders
  import opened Frame
  import opened Messages
  import opened Codec

  // ---------- one call, more bytes ----------

  lemma ReadFrameStable(a: seq<byte>, b: seq<byte>)
    ensures ReadFrame(a).Complete? ==> ReadFrame(a + b) == ReadFrame(a)
    ensures ReadFrame(a).Unreadable? && !ReadFrame(a).error.ExceedsAddressSpace? ==> ReadFrame(a + b) == ReadFrame(a)
  {
    hide ParseSlice, TryU64, HeaderLen;
    if ParseSlice(a).Some? {
      ParseStable(a, b);
      if ReadFrame(a).Complete? {
        var headerLen, frameLen := ParseSlice(a).value.1, ReadFrame(a).frameLen;
        assert (a + b)[headerLen..frameLen] == a[headerLen..frameLen];
      }
    }
  }

  /** Errors that no further bytes can repair. */
  predicate IsFinal(e: CodecError) {
    !e.ExceedsAddressSpace?
  }

  lemma StepErrorsFinal(state: CodecState, header: FrameHeader, data: seq<byte>)
    ensures Step(state, header, data).Reject? ==> IsFinal(Step(state, header, data).error)
  {
  }

  lemma TurnStable(state: CodecState, a: seq<byte>, b: seq<byte>)
    requires ReadFrame(a).Complete? || (ReadFrame(a).Unreadable? && IsFinal(ReadFrame(a).error))
    ensures Turn(state, a + b) ==
      match Turn(state, a)
      case Stop(o) => Stop(Followed(o, b))
      case Again(next, rest) => Again(next, rest + b)
  {
    hide ReadFrame, Step, Unmasked, New;
    ReadFrameStable(a, b);
    if ReadFrame(a).Complete? {
      var n := ReadFrame(a).frameLen;
      assert (a + b)[n..] == a[n..] + b;
    }
  }

  /**
    Bytes that arrive later continue what the decoder left undecided, and change nothing that it decided,
    unless it decided that the frame exceeds the address space.
   */
  lemma {:induction false} DecodedChunk(state: CodecState, a: seq<byte>, b: seq<byte>)
    ensures
      match Decoded(state, a)
      case NotYet(s, rest) => Decoded(state, a + b) == Decoded(s, rest + b)
      case Item(m, s, rest) => Decoded(state, a + b) == Item(m, s, rest + b)
      case Fail(e, s, rest) => IsFinal(e) ==> Decoded(state, a + b) == Fail(e, s, rest + b)
    decreases |a|
  {
    hide ReadFrame, Step, Unmasked, New;
    if ReadFrame(a).Complete? || (ReadFrame(a).Unreadable? && IsFinal(ReadFrame(a).error)) {
      TurnStable(state, a, b);
      if Turn(state, a).Again? {
        DecodedChunk(Turn(state, a).state, Turn(state, a).rest, b);
        assert Decoded(state, a) == Decoded(Turn(state, a).state, Turn(state, a).rest);
        assert Decoded(state, a + b) == Decoded(Turn(state, a).state, Turn(state, a).rest + b);
      }
    }
  }

  /** The decoder does not care where a buffer ends, except for the one error that blames the buffer. */
  lemma DecodedChunkIndependent()
    ensures ChunkIndependent(Decoded, IsFinal)
  {
    forall s: CodecState, a, b
      ensures ChunkIndependentAt(Decoded, IsFinal, s, a, b)
    {
      DecodedChunk(s, a, b);
    }
  }

  // ---------- lengths ----------

  const MAX_HEADER: nat := 14

  /** The longest buffer for which the second length check cannot fire. */
  const MAX_BUFFER: nat := TWO_TO_THE_63 - MAX_HEADER

  /** No length computation overflows a 64-bit `usize`. */
  lemma FrameLengthFits(src: seq<byte>)
    requires ParseSlice(src).Some? && TryUsize(ParseSlice(src).value.0.dataLen).Ok?
    ensures
      var (header, headerLen) := ParseSlice(src).value;
      headerLen + TryUsize(header.dataLen).value <= MAX_HEADER + (TWO_TO_THE_63 - 1) <= USIZE_MAX
  {
  }

  /** In a buffer of at most 2^63 - 14 bytes no frame exceeds the address space. */
  lemma {:induction false} AddressSpaceSuffices(state: CodecState, src: seq<byte>)
    requires |src| <= MAX_BUFFER
    ensures Decoded(state, src).Fail? ==> IsFinal(Decoded(state, src).error)
    decreases |src|
  {
    hide ParseSlice, Step, Unmasked, New;
    match ReadFrame(src)
    case NeedMore =>
    case Unreadable(e) =>
      if e.ExceedsAddressSpace? {
        FrameLengthFits(src);
      }
    case Complete(header, payload, _) =>
      StepErrorsFinal(state, header, Unmasked(header, payload));
      if Turn(state, src).Again? {
        AddressSpaceSuffices(Turn(state, src).state, Turn(state, src).rest);
      }
  }

  /** One byte more and it can: the bound is tight. */
  lemma AddressSpaceBoundTight(state: CodecState) returns (src: seq<byte>)
    ensures |src| == MAX_BUFFER + 1
    ensures Decoded(state, src) == Fail(ExceedsAddressSpace(TWO_TO_THE_63 + 13), None, src)
  {
    hide HeaderBytes, ParseSlice;
    var header := FrameHeader(true, 0, 2, Some(0), Large(TWO_TO_THE_63 - 1));
    src := HeaderBytes(header) + seq(MAX_BUFFER + 1 - 14, _ => 0);
    assert FitsRsv(0) && FitsOpcode(2);
    ParseOfHeaderBytes(header, seq(MAX_BUFFER + 1 - 14, _ => 0));
  }

  /** The address space is to blame. */
  predicate Blamed(o: CodecOutcome) {
    o.Fail? && o.error.ExceedsAddressSpace?
  }

  /** Where the decoder blames the address space, it goes on doing so exactly until the whole frame has arrived. */
  lemma {:induction false} AddressSpaceBlame(state: CodecState, a: seq<byte>, b: seq<byte>)
    ensures
      var o := Decoded(state, a);
      Blamed(o) ==> (Decoded(state, a + b) == Followed(o, b) <==> |o.rest + b| < o.error.frameLen)
    decreases |a|
  {
    hide ReadFrame, Step, Unmasked, New;
    if !Blamed(Decoded(state, a)) {
    } else if Turn(state, a).Again? {
      assert ReadFrame(a).Complete?;
      TurnStable(state, a, b);
      AddressSpaceBlame(Turn(state, a).state, Turn(state, a).rest, b);
      assert Decoded(state, a) == Decoded(Turn(state, a).state, Turn(state, a).rest);
      assert Decoded(state, a + b) == Decoded(Turn(state, a).state, Turn(state, a).rest + b);
    } else {
      BlameAtFront(state, a, b);
    }
  }

  lemma BlameAtFront(state: CodecState, a: seq<byte>, b: seq<byte>)
    ensures Turn(state, a).Stop? && Blamed(Turn(state, a).outcome) ==>
      && Decoded(state, a) == Fail(Turn(state, a).outcome.error, None, a)
      && (Decoded(state, a + b) == Fail(Decoded(state, a).error, None, a + b) <==>
            |a + b| < Decoded(state, a).error.frameLen)
  {
    hide ParseSlice, HeaderLen, TryU64, Step, Unmasked, New;
    if ReadFrame(a).Complete? {
      StepErrorsFinal(state, ReadFrame(a).header, Unmasked(ReadFrame(a).header, ReadFrame(a).payload));
    }
    if ParseSlice(a).Some? {
      ParseStable(a, b);
    }
    if ReadFrame(a + b).Complete? {
      assert |Decoded(state, a + b).rest| < |a + b|;
    }
  }

  // ---------- whole runs ----------

  /** Where calling the decoder again and again stops: for want of bytes, or at the first error. */
  datatype Ending =
    | Waiting(state: CodecState, rest: seq<byte>)
    | Failed(error: CodecError, state: CodecState, rest: seq<byte>)

  datatype Run = Run(messages: seq<Message>, ending: Ending)

  function Prepend(messages: seq<Message>, run: Run): Run {
    Run(messages + run.messages, run.ending)
  }

  /** All the messages in `src`, and what stopped the decoder after the last. */
  function RunAll(state: CodecState, src: seq<byte>): (run: Run)
    decreases |src|
  {
    match Decoded(state, src)
    case NotYet(s, rest) => Run([], Waiting(s, rest))
    case Fail(e, s, rest) => Run([], Failed(e, s, rest))
    case Item(m, s, rest) => Prepend([m], RunAll(s, rest))
  }

  lemma PrependTwice(ms: seq<Message>, ns: seq<Message>, run: Run)
    ensures Prepend(ms, Prepend(ns, run)) == Prepend(ms + ns, run)
  {
    assert ms + (ns + run.messages) == (ms + ns) + run.messages;
  }

  lemma PrependNone(run: Run)
    ensures Prepend([], run) == run
  {
  }

  /** A run over `a + b` is the run over `a`, and then the run over what that left together with `b`. */
  lemma {:induction false} RunAllConcat(state: CodecState, a: seq<byte>, b: seq<byte>)
    ensures
      var run := RunAll(state, a);
      match run.ending
      case Waiting(s, rest) => RunAll(state, a + b) == Prepend(run.messages, RunAll(s, rest + b))
      case Failed(e, s, rest) =>
        IsFinal(e) ==> RunAll(state, a + b) == Run(run.messages, Failed(e, s, rest + b))
    decreases |a|
  {
    hide Decoded;
    DecodedChunk(state, a, b);
    match Decoded(state, a)
    case NotYet(s, rest) =>
      PrependNone(RunAll(s, rest + b));
    case Fail(e, s, rest) =>
    case Item(m, s, rest) =>
      RunAllConcat(s, rest, b);
      var run := RunAll(s, rest);
      assert RunAll(state, a + b) == Prepend([m], RunAll(s, rest + b));
      if run.ending.Waiting? {
        PrependTwice([m], run.messages, RunAll(run.ending.state, run.ending.rest + b));
      }
  }

  function Joined(chunks: seq<seq<byte>>): seq<byte> {
    if chunks == [] then [] else chunks[0] + Joined(chunks[1..])
  }

  /** The run of a decoder that is handed the stream chunk by chunk, and drained after every chunk. */
  function Feed(state: CodecState, buffer: seq<byte>, chunks: seq<seq<byte>>): (run: Run)
    decreases |chunks|
  {
    var run := RunAll(state, buffer);
    if chunks == [] || run.ending.Failed? then run
    else Prepend(run.messages, Feed(run.ending.state, run.ending.rest + chunks[0], chunks[1..]))
  }

  /** Two runs with the same messages, ending in the same state for the same reason. */
  predicate SameRun(r: Run, q: Run) {
    && r.messages == q.messages
    && r.ending.state == q.ending.state
    && (r.ending.Waiting? <==> q.ending.Waiting?)
    && (r.ending.Waiting? ==> r.ending.rest == q.ending.rest)
    && (r.ending.Failed? ==> q.ending.Failed? && r.ending.error == q.ending.error)
  }

  /** However a stream is cut, the messages, the partial message and the first error are those of the whole. */
  lemma {:induction false} CuttingIsInvisible(state: CodecState, buffer: seq<byte>, chunks: seq<seq<byte>>)
    requires Feed(state, buffer, chunks).ending.Failed? ==> IsFinal(Feed(state, buffer, chunks).ending.error)
    ensures SameRun(Feed(state, buffer, chunks), RunAll(state, buffer + Joined(chunks)))
    decreases |chunks|
  {
    hide Decoded, RunAll;
    var run := RunAll(state, buffer);
    RunAllConcat(state, buffer, Joined(chunks));
    if chunks == [] {
      assert buffer + Joined(chunks) == buffer;
    } else if run.ending.Waiting? {
      var s, rest := run.ending.state, run.ending.rest;
      CuttingIsInvisible(s, rest + chunks[0], chunks[1..]);
      assert rest + chunks[0] + Joined(chunks[1..]) == rest + Joined(chunks);
    }
  }

  lemma {:induction false} RestShrinks(state: CodecState, src: seq<byte>)
    ensures |RunAll(state, src).ending.rest| <= |src|
    decreases |src|
  {
    hide Decoded;
    if Decoded(state, src).Item? {
      RestShrinks(Decoded(state, src).state, Decoded(state, src).rest);
    }
  }

  lemma {:induction false} RunFailsFinally(state: CodecState, src: seq<byte>)
    requires |src| <= MAX_BUFFER
    ensures RunAll(state, src).ending.Failed? ==> IsFinal(RunAll(state, src).ending.error)
    decreases |src|
  {
    hide Decoded;
    AddressSpaceSuffices(state, src);
    if Decoded(state, src).Item? {
      RunFailsFinally(Decoded(state, src).state, Decoded(state, src).rest);
    }
  }

  /** For a stream of at most 2^63 - 14 bytes no proviso is needed. */
  lemma {:induction false} CuttingIsInvisibleWhenShort(state: CodecState, buffer: seq<byte>, chunks: seq<seq<byte>>)
    requires |buffer| + |Joined(chunks)| <= MAX_BUFFER
    ensures SameRun(Feed(state, buffer, chunks), RunAll(state, buffer + Joined(chunks)))
  {
    FeedFailsFinally(state, buffer, chunks);
    CuttingIsInvisible(state, buffer, chunks);
  }

  lemma {:induction false} FeedFailsFinally(state: CodecState, buffer: seq<byte>, chunks: seq<seq<byte>>)
    requires |buffer| + |Joined(chunks)| <= MAX_BUFFER
    ensures Feed(state, buffer, chunks).ending.Failed? ==> IsFinal(Feed(state, buffer, chunks).ending.error)
    decreases |chunks|
  {
    hide RunAll;
    RunFailsFinally(state, buffer);
    RestShrinks(state, buffer);
    if chunks != [] && RunAll(state, buffer).ending.Waiting? {
      FeedFailsFinally(RunAll(state, buffer).ending.state, RunAll(state, buffer).ending.rest + chunks[0], chunks[1..]);
    }
  }

  /** A run, taken one frame at a time. */
  lemma RunAllTurn(state: CodecState, src: seq<byte>)
    ensures Turn(state, src).Again? ==> RunAll(state, src) == RunAll(Turn(state, src).state, Turn(state, src).rest)
    ensures Turn(state, src).Stop? && Turn(state, src).outcome.Item? ==>
      RunAll(state, src) ==
        Prepend([Turn(state, src).outcome.item], RunAll(Turn(state, src).outcome.state, Turn(state, src).outcome.rest))
  {
    hide Turn;
  }
}
