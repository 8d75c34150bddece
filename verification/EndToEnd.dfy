/**
  The codec under the driver: whatever the peer sends, in pieces of whatever sizes, is received as decoding the whole
  stream at once would have it; and what one driver sends another receives.
 */
module EndToEnd {
  import opened Bytes
  import opened Wrappers
  import opened Decoders
  import opened Frame
  import opened Messages
  import opened Codec
  import opened Streams
  import opened Wire
  import opened RoundTrip
  import opened Sync

  lemma SuffixOfSuffix(a: seq<byte>, b: seq<byte>, c: seq<byte>)
    requires IsSuffix(a, b) && IsSuffix(b, c)
    ensures IsSuffix(a, c)
  {
    var n := |c| - |b|;
    assert forall i :: 0 <= i < |a| ==> a[i] == b[|b| - |a| + i] == c[n + (|b| - |a| + i)];
  }

  lemma TurnSuffix(state: CodecState, src: seq<byte>)
    ensures
      match Turn(state, src)
      case Stop(o) => IsSuffix(o.rest, src)
      case Again(_, rest) => IsSuffix(rest, src)
  {
    hide ReadFrame, Step, Unmasked, New;
  }

  lemma {:induction false} DecodedSuffix(state: CodecState, src: seq<byte>)
    ensures IsSuffix(Decoded(state, src).rest, src)
    decreases |src|
  {
    hide Turn, IsSuffix;
    TurnSuffix(state, src);
    if Turn(state, src).Again? {
      var next, rest := Turn(state, src).state, Turn(state, src).rest;
      DecodedSuffix(next, rest);
      SuffixOfSuffix(Decoded(next, rest).rest, rest, src);
    }
  }

  /** The message codec meets the demands the driver makes of a decoder. */
  lemma CodecFitsDriver()
    ensures ChunkIndependent(Decoded, IsFinal) && TakesFromFront(Decoded)
  {
    DecodedChunkIndependent();
    forall s: CodecState, a: seq<byte>
      ensures TakesFromFrontAt(Decoded, s, a)
    {
      DecodedSuffix(s, a);
    }
  }

  // ---------- any stream ----------

  /** What the last call to `receive` reports for a way that a run ends. */
  function LastReport(ending: Ending): Received<Message, CodecError> {
    match ending
    case Waiting(_, rest) => if rest == [] then Ended else BytesRemaining
    case Failed(e, _, _) => DecodeError(e)
  }

  /** The report is not the one error that later bytes might have repaired. */
  predicate Conclusive(r: Received<Message, CodecError>) {
    r.DecodeError? ==> IsFinal(r.error)
  }

  /**
    Calling `receive` until it has nothing more to hand out, on a stream that delivers `input` in reads of any sizes,
    hands out the messages of the run over the whole of `input`, and reports the way that run ends. The report can be
    inconclusive only for inputs of more than 2^63 - 14 bytes.
   */
  method ReceiveAll(input: seq<byte>) returns (received: seq<Message>, last: Received<Message, CodecError>)
    ensures |input| <= MAX_BUFFER ==> Conclusive(last)
    ensures Conclusive(last) ==> Run(received, RunAll(None, input).ending) == RunAll(None, input)
    ensures Conclusive(last) ==> last == LastReport(RunAll(None, input).ending)
  {
    hide Decoded;
    CodecFitsDriver();
    var stream := new Stream(true, input);
    var framed := new Framed(stream, Decoded, None);
    received := [];
    assert framed.Ahead() == input;
    PrependNone(RunAll(None, input));
    while true
      invariant framed.Valid() && framed.decode == Decoded && framed.stream == stream
      invariant fresh(framed.readBuf) && fresh(framed.readBuf.mem)
      invariant |framed.Ahead()| <= |input|
      invariant RunAll(None, input) == Prepend(received, RunAll(framed.codec, framed.Ahead()))
      decreases |framed.Ahead()|
    {
      ghost var s, whole := framed.codec, framed.Ahead();
      last := framed.Receive(IsFinal);
      ReportedRun(framed, last, s, whole);
      if !last.Got? {
        assert received + [] == received;
        return;
      }
      PrependTwice(received, [last.item], RunAll(framed.codec, framed.Ahead()));
      received := received + [last.item];
    }
  }

  lemma ReportedRun(
    framed: Framed<CodecState, Message, CodecError>, r: Received<Message, CodecError>, s: CodecState, whole: seq<byte>)
    requires framed.Valid() && framed.decode == Decoded && framed.stream.reliable
    requires framed.Explained(r, IsFinal, s, whole)
    ensures r.Got? ==> |framed.Ahead()| < |whole|
    ensures r.Got? ==> RunAll(s, whole) == Prepend([r.item], RunAll(framed.codec, framed.Ahead()))
    ensures |whole| <= MAX_BUFFER ==> Conclusive(r)
    ensures !r.Got? && Conclusive(r) ==> RunAll(s, whole).messages == [] && r == LastReport(RunAll(s, whole).ending)
  {
    if r.DecodeError? && |whole| <= MAX_BUFFER {
      AddressSpaceSuffices(s, whole[..|whole| - |framed.stream.input|]);
    }
    hide Turn;
  }

  // ---------- what one driver sends, another receives ----------

  /** The message is well-formed, and its frame fits in a buffer of at most 2^63 - 1 bytes. */
  ghost predicate Sendable(o: Outgoing) {
    WellFormed(o.message) && |Encoded(o.message, o.mask)| < TWO_TO_THE_63
  }

  lemma FrameLengthOfPart(m: Message, mask: Option<bv32>, part: seq<byte>, b: seq<byte>)
    requires |m.data| < TWO_TO_THE_63
    requires part + b == Encoded(m, mask) && b != []
    ensures !ReadFrame(part).Complete?
    ensures ReadFrame(part).Unreadable? ==> ReadFrame(part).error == ExceedsAddressSpace(|Encoded(m, mask)|)
    ensures ReadFrame(part).Unreadable? ==> |Encoded(m, mask)| > USIZE_MAX - |part|
  {
    hide ParseSlice, HeaderBytes, Unmasked, Header;
    if ParseSlice(part).Some? {
      ParseStable(part, b);
      ParseOfHeaderBytes(Header(m, mask), Unmasked(Header(m, mask), m.data));
      HeaderAccepted(m, mask);
    }
  }

  /** No prefix of a stream that starts with a sendable message is an error. */
  lemma PrefixNeverFails(o: Outgoing, tail: seq<byte>, part: seq<byte>)
    requires Sendable(o)
    requires part <= Encoded(o.message, o.mask) + tail
    ensures !Decoded(None, part).Fail?
  {
    hide ReadFrame, Encoded, WellFormed, Step, Unmasked;
    var frame := Encoded(o.message, o.mask);
    if |part| < |frame| {
      var b := frame[|part|..];
      assert (frame + tail)[..|part|] == frame[..|part|];
      assert part + b == frame;
      FrameLengthOfPart(o.message, o.mask, part, b);
    } else {
      var more := part[|frame|..];
      assert (frame + tail)[..|frame|] == frame;
      assert part == frame + more;
      RoundTripExactly(None, o.message, o.mask, more);
    }
  }

  /** The driver, facing a stream that starts with a sendable message, hands out that message and nothing else. */
  lemma HandsOutNext(
    framed: Framed<CodecState, Message, CodecError>, r: Received<Message, CodecError>, o: Outgoing, tail: seq<byte>)
    requires framed.Valid() && framed.decode == Decoded && framed.stream.reliable
    requires Sendable(o) && framed.Explained(r, IsFinal, None, Encoded(o.message, o.mask) + tail)
    ensures r == Got(o.message) && framed.codec == None && framed.Ahead() == tail
  {
    hide Decoded, Encoded, WellFormed;
    var whole := Encoded(o.message, o.mask) + tail;
    RoundTripExactly(None, o.message, o.mask, tail);
    PrefixNeverFails(o, tail, whole[..|whole| - |framed.stream.input|]);
  }

  function EncodeOutgoing(state: CodecState, o: Outgoing): seq<byte> {
    Encoded(o.message, o.mask)
  }

  /** Sends the messages one by one through a fresh driver. */
  method SendAll(os: seq<Outgoing>) returns (wire: seq<byte>)
    ensures wire == Sent(os)
  {
    hide Decoded, Encoded, Sent;
    SentEnds(os);
    var stream := new Stream(true, []);
    var sender := new Framed(stream, Decoded, None);
    for i := 0 to |os|
      invariant sender.Valid() && sender.stream == stream
      invariant fresh(sender.writeBuf) && fresh(sender.writeBuf.mem)
      invariant stream.output == Sent(os[..i])
    {
      SentAt(os, i);
      var ok := sender.Send(EncodeOutgoing, os[i]);
    }
    wire := stream.output;
  }

  /**
    Any list of well-formed messages, sent one by one through a driver with any masks or none, and read back by a
    fresh driver in reads of any sizes, comes out of successive calls to `receive` as exactly that list, in order,
    and then the end of the stream.
   */
  method SendThenReceive(os: seq<Outgoing>) returns (received: seq<Message>, last: Received<Message, CodecError>)
    requires forall o :: o in os ==> Sendable(o)
    ensures received == MessagesOf(os)
    ensures last == Ended
  {
    hide Decoded, Encoded, Sendable, Sent, ChunkIndependent, TakesFromFront;
    SentEnds(os);
    CodecFitsDriver();
    var wire := SendAll(os);
    var stream := new Stream(true, wire);
    var receiver := new Framed(stream, Decoded, None);
    received := [];
    assert receiver.Ahead() == wire;
    for i := 0 to |os|
      invariant receiver.Valid() && receiver.decode == Decoded && receiver.stream == stream
      invariant fresh(receiver.readBuf) && fresh(receiver.readBuf.mem)
      invariant receiver.codec == None && receiver.Ahead() == Sent(os[i..])
      invariant received == MessagesOf(os)[..i]
    {
      SentAt(os, i);
      last := receiver.Receive(IsFinal);
      HandsOutNext(receiver, last, os[i], Sent(os[i + 1..]));
      received := received + [last.item];
    }
    last := receiver.Receive(IsFinal);
    EndsQuietly(receiver, last);
  }

  lemma EndsQuietly(framed: Framed<CodecState, Message, CodecError>, r: Received<Message, CodecError>)
    requires framed.Valid() && framed.decode == Decoded && framed.stream.reliable
    requires framed.Explained(r, IsFinal, None, [])
    ensures r == Ended
  {
    hide ReadFrame;
    ReadNothing();
  }

  // ---------- without a driver ----------

  /** Encoding messages one after the other into a buffer and decoding them from it gives them back. */
  method ThroughOneBuffer(ms: seq<Message>, randoms: seq<bv32>, useMask: bool) returns (decoded: seq<Message>)
    requires |randoms| == |ms|
    requires forall m :: m in ms ==> WellFormed(m) && |m.data| < TWO_TO_THE_63
    ensures decoded == ms
  {
    hide Decoded, Encoded, WellFormed, Sent;
    var buf := new BytesMut();
    var codec := new MessageCodec(useMask);
    ghost var os := Drawn(ms, randoms, useMask);
    SentEnds(os);
    for i := 0 to |ms|
      invariant buf.Valid() && fresh(buf.mem) && codec.interruptedMessage == None
      invariant buf.Contents() == Sent(os[..i])
    {
      SentAt(os, i);
      codec.Encode(ms[i], randoms[i], buf);
    }
    decoded := [];
    for i := 0 to |ms|
      invariant buf.Valid() && fresh(buf.mem) && codec.interruptedMessage == None
      invariant buf.Contents() == Sent(os[i..])
      invariant decoded == ms[..i]
    {
      SentAt(os, i);
      RoundTripExactly(None, ms[i], os[i].mask, Sent(os[i + 1..]));
      var r := codec.Decode(buf);
      decoded := decoded + [r.value.value];
    }
  }

  /** The messages with the masks that a codec draws for them. */
  function Drawn(ms: seq<Message>, randoms: seq<bv32>, useMask: bool): (os: seq<Outgoing>)
    requires |randoms| == |ms|
    requires forall m :: m in ms ==> |m.data| < TWO_TO_THE_63
    ensures |os| == |ms|
  {
    seq(|ms|, i requires 0 <= i < |ms| => Packet(ms[i], if useMask then Some(randoms[i]) else None))
  }

  // ---------- another codec on the same stream ----------

  /**
    One item with one codec and the next with another: the second codec sees exactly the bytes that the first did not
    consume, whether they were already buffered or not.
   */
  method HandOver<S(!new), T, E, S2(!new), T2, E2>(
    framed: Framed<S, T, E>, ghost final: E -> bool, decode2: Decoder<S2, T2, E2>, codec2: S2, ghost final2: E2 -> bool)
    returns (first: Received<T, E>, second: Received<T2, E2>, framed2: Framed<S2, T2, E2>)
    requires framed.Valid() && TakesFromFront(framed.decode) && ChunkIndependent(framed.decode, final)
    requires TakesFromFront(decode2) && ChunkIndependent(decode2, final2)
    modifies framed`codec, framed.readBuf, framed.readBuf.mem, framed.stream`input, framed.stream`asked,
      framed.stream`failed
    ensures framed2.Valid() && framed2.decode == decode2
    ensures first.Got? ==>
      var o := framed.decode(old(framed.codec), old(framed.Ahead()));
      o.Item? && first.item == o.item && framed2.Explained(second, final2, codec2, o.rest)
  {
    first := framed.Receive(final);
    framed2 := framed.ReplaceCodec(decode2, codec2);
    second := framed2.Receive(final2);
  }
}
