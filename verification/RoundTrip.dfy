/**
  Encoding and decoding undo each other, and fragmentation does not show.
 */
module RoundTrip {
  import opened Bytes
  import opened Wrappers
  import opened Decoders
  import opened Utf8
  import opened Opcodes
  import opened Frame
  import opened Messages
  import opened Codec
  import opened Streams
  import opened Wire

  // ---------- one message ----------

  /** The single frame that carries a message. */
  function FrameOf(m: Message, mask: Option<bv32>): (f: WireFrame)
    requires |m.data| < TWO_TO_THE_63
    ensures f.Valid()
    ensures f.ToBytes() == Encoded(m, mask)
  {
    WireFrame(Header(m, mask), m.data)
  }

  lemma OpcodeOfToByte(o: Opcode)
    ensures OpcodeOf(o.ToByte()) == Some(o) && o.ToByte() != 0
  {
  }

  lemma StepOfMessage(state: CodecState, m: Message, mask: Option<bv32>)
    requires |m.data| < TWO_TO_THE_63
    ensures
      StepFrame(state, FrameOf(m, mask)) ==
      if m.opcode.IsControl() && |m.data| > MAX_CONTROL_PAYLOAD then Reject(ControlTooLong(|m.data|))
      else if state.Some? && !m.opcode.IsControl() then Reject(NotAContinuation(m.opcode))
      else Emit(m.opcode, m.data, state)
  {
    hide OpcodeOf, Opcode.ToByte, TryU64, DataLengthOf, Fits;
    OneAcceptedForm(DataLengthOf(|m.data|), |m.data|);
    OpcodeOfToByte(m.opcode);
  }

  /**
    Decoding an encoded message, whatever bytes follow it, returns the message and leaves those bytes if and only if
    the message is well-formed and, while another message is half received, a control message. A control message
    with more than 125 bytes of payload can be built and encoded, and the decoder refuses it.
   */
  lemma RoundTripExactly(state: CodecState, m: Message, mask: Option<bv32>, rest: seq<byte>)
    requires |m.data| < TWO_TO_THE_63
    ensures Decoded(state, Encoded(m, mask) + rest) == Item(m, state, rest) <==>
            WellFormed(m) && (state.Some? ==> m.opcode.IsControl())
  {
    hide Turn, StepFrame, ValidUtf8, Unmasked, HeaderBytes;
    StepOfMessage(state, m, mask);
    TurnOfToBytes(state, FrameOf(m, mask), rest);
  }

  /** The smallest message that encodes but does not decode. */
  lemma LongPingRefused(mask: Option<bv32>)
    ensures
      var m := NewPing(seq(126, _ => 0));
      Valid(m) && Decoded(None, Encoded(m, mask)).Fail?
  {
    hide Turn, StepFrame, Unmasked, HeaderBytes;
    var m := NewPing(seq(126, _ => 0));
    StepOfMessage(None, m, mask);
    TurnOfToBytes(None, FrameOf(m, mask), []);
    assert Encoded(m, mask) + [] == Encoded(m, mask);
  }

  // ---------- lists of messages ----------

  datatype Packet = Packet(message: Message, mask: Option<bv32>)

  /** A message to send and the mask to send it with, if any. */
  type Outgoing = p: Packet | |p.message.data| < TWO_TO_THE_63 witness Packet(Message(Text, []), None)

  ghost predicate AllWellFormed(os: seq<Outgoing>) {
    forall o :: o in os ==> WellFormed(o.message)
  }

  function MessagesOf(os: seq<Outgoing>): (ms: seq<Message>)
    ensures |ms| == |os|
  {
    seq(|os|, i requires 0 <= i < |os| => os[i].message)
  }

  /** The messages encoded one after the other. */
  function Sent(os: seq<Outgoing>): seq<byte> {
    if os == [] then [] else Encoded(os[0].message, os[0].mask) + Sent(os[1..])
  }

  /** A list of well-formed messages comes back as that list. */
  lemma {:induction false} ListRoundTrip(os: seq<Outgoing>, rest: seq<byte>)
    requires AllWellFormed(os)
    ensures RunAll(None, Sent(os) + rest) == Prepend(MessagesOf(os), RunAll(None, rest))
    decreases |os|
  {
    hide Decoded, Encoded, WellFormed;
    if os == [] {
      assert Sent(os) + rest == rest;
      PrependNone(RunAll(None, rest));
    } else {
      var o, tail := os[0], Sent(os[1..]) + rest;
      assert Sent(os) + rest == Encoded(o.message, o.mask) + tail;
      RoundTripExactly(None, o.message, o.mask, tail);
      ListRoundTrip(os[1..], rest);
      PrependTwice([o.message], MessagesOf(os[1..]), RunAll(None, rest));
      assert [o.message] + MessagesOf(os[1..]) == MessagesOf(os);
    }
  }

  lemma {:induction false} SentSnoc(os: seq<Outgoing>, o: Outgoing)
    ensures Sent(os + [o]) == Sent(os) + Encoded(o.message, o.mask)
    decreases |os|
  {
    hide Encoded;
    if os == [] {
      assert os + [o] == [o] && [o][1..] == [];
    } else {
      assert (os + [o])[1..] == os[1..] + [o];
      SentSnoc(os[1..], o);
    }
  }

  /** Message `i` lies between the messages before it and the messages after it. */
  lemma SentAt(os: seq<Outgoing>, i: nat)
    requires i < |os|
    ensures Sent(os[..i + 1]) == Sent(os[..i]) + Encoded(os[i].message, os[i].mask)
    ensures Sent(os[i..]) == Encoded(os[i].message, os[i].mask) + Sent(os[i + 1..])
  {
    hide Encoded;
    assert os[..i + 1] == os[..i] + [os[i]];
    SentSnoc(os[..i], os[i]);
    assert os[i..][1..] == os[i + 1..];
  }

  lemma SentEnds(os: seq<Outgoing>)
    ensures Sent(os[..0]) == [] && Sent(os[..|os|]) == Sent(os) == Sent(os[0..]) && Sent(os[|os|..]) == []
  {
    assert os[..|os|] == os == os[0..];
  }

  // ---------- the other way round ----------

  /** The messages as a server codec sends them. */
  function FromServer(ms: seq<Message>): (os: seq<Outgoing>)
    requires forall m :: m in ms ==> |m.data| < TWO_TO_THE_63
    ensures MessagesOf(os) == ms
  {
    seq(|ms|, i requires 0 <= i < |ms| => Packet(ms[i], None))
  }

  ghost predicate WholeAndUnmasked(f: WireFrame) {
    f.header.fin && f.header.mask == None
  }

  lemma EmittedReencodes(f: WireFrame)
    requires f.Valid() && WholeAndUnmasked(f) && StepFrame(None, f).Emit?
    ensures
      var Emit(opcode, data, next) := StepFrame(None, f);
      next == None && |data| < TWO_TO_THE_63 && FrameOf(Message(opcode, data), None) == f
  {
    hide FitsRsv, FitsOpcode, DataLengthOf;
    OneAcceptedForm(f.header.dataLen, |f.data|);
  }

  /**
    Decoding a stream of whole, final, unmasked frames and encoding the messages again with a server codec gives
    back the stream byte for byte, because each payload length has exactly one accepted header form.
   */
  lemma {:induction false} ReverseRoundTrip(fs: seq<WireFrame>)
    requires AllValid(fs) && forall f :: f in fs ==> WholeAndUnmasked(f)
    requires RunFrames(None, fs).ending.Between?
    ensures
      var run := RunFrames(None, fs);
      && run.ending.state == None && |run.messages| == |fs|
      && (forall m :: m in run.messages ==> |m.data| < TWO_TO_THE_63)
      && Sent(FromServer(run.messages)) == WireBytes(fs)
    decreases |fs|
  {
    hide StepFrame, New, Encoded, Fits;
    if fs != [] {
      var f := fs[0];
      StepOfWhole(f);
      match StepFrame(None, f)
      case Reject(_) =>
      case Continue(_) => assert false;
      case Emit(opcode, data, next) =>
        EmittedReencodes(f);
        ReverseRoundTrip(fs[1..]);
        var run, tail := RunFrames(None, fs), RunFrames(None, fs[1..]).messages;
        assert run.messages == [Message(opcode, data)] + tail;
        assert FromServer(run.messages) == [Packet(Message(opcode, data), None)] + FromServer(tail);
    }
  }

  lemma StepOfWhole(f: WireFrame)
    requires WholeAndUnmasked(f)
    ensures !StepFrame(None, f).Continue?
  {
  }

  /** The same of the bytes. */
  lemma StreamReverseRoundTrip(fs: seq<WireFrame>)
    requires AllValid(fs) && forall f :: f in fs ==> WholeAndUnmasked(f)
    requires RunAll(None, WireBytes(fs)).ending.Waiting?
    ensures
      var run := RunAll(None, WireBytes(fs));
      && |run.messages| == |fs|
      && (forall m :: m in run.messages ==> |m.data| < TWO_TO_THE_63)
      && Sent(FromServer(run.messages)) == WireBytes(fs)
  {
    hide RunFrames;
    RunAllOfFrames(None, fs, []);
    assert WireBytes(fs) + [] == WireBytes(fs);
    ReverseRoundTrip(fs);
    ReadNothing();
    RemainderWaits(None, []);
    assert RunFrames(None, fs).messages + [] == RunFrames(None, fs).messages;
  }

  // ---------- fragmented messages ----------

  /** One fragment of a data message, and the control messages that come just before it. */
  datatype Fragment = Fragment(controls: seq<Outgoing>, data: seq<byte>, mask: Option<bv32>)

  ghost predicate ControlsFit(controls: seq<Outgoing>) {
    forall c :: c in controls ==> c.message.opcode.IsControl() && WellFormed(c.message)
  }

  ghost predicate FragmentsFit(fragments: seq<Fragment>) {
    forall p :: p in fragments ==> ControlsFit(p.controls) && |p.data| < TWO_TO_THE_63
  }

  function ControlFrames(controls: seq<Outgoing>): seq<WireFrame>
  {
    if controls == [] then [] else
      [FrameOf(controls[0].message, controls[0].mask)] + ControlFrames(controls[1..])
  }

  /** Section 5.4 of RFC 6455: the opcode in the first fragment, 0 in the others, FIN in the last. */
  function FragmentFrame(p: Fragment, code: byte, fin: bool): WireFrame
    requires |p.data| < TWO_TO_THE_63
  {
    WireFrame(FrameHeader(fin, 0, code, p.mask, DataLengthOf(|p.data|)), p.data)
  }

  ghost function FragmentFrames(code: byte, fragments: seq<Fragment>): seq<WireFrame>
    requires FragmentsFit(fragments)
    decreases |fragments|
  {
    if fragments == [] then [] else
      var p := fragments[0];
      ControlFrames(p.controls) + [FragmentFrame(p, code, |fragments| == 1)] + FragmentFrames(0, fragments[1..])
  }

  function Payload(fragments: seq<Fragment>): seq<byte> {
    if fragments == [] then [] else fragments[0].data + Payload(fragments[1..])
  }

  function ControlMessages(controls: seq<Outgoing>): seq<Message> {
    if controls == [] then [] else [controls[0].message] + ControlMessages(controls[1..])
  }

  function Interleaved(fragments: seq<Fragment>): seq<Message> {
    if fragments == [] then [] else ControlMessages(fragments[0].controls) + Interleaved(fragments[1..])
  }

  function PrependMessages(ms: seq<Message>, run: FrameRun): FrameRun {
    FrameRun(ms + run.messages, run.ending)
  }

  lemma FragmentsFitHead(fragments: seq<Fragment>)
    requires fragments != [] && FragmentsFit(fragments)
    ensures ControlsFit(fragments[0].controls) && |fragments[0].data| < TWO_TO_THE_63
    ensures FragmentsFit(fragments[1..])
  {
  }

  lemma RunNoFrames(state: CodecState)
    ensures RunFrames(state, []) == FrameRun([], Between(state))
  {
  }

  lemma RunFramesEmit(state: CodecState, f: WireFrame, fs: seq<WireFrame>, m: Message, next: CodecState)
    requires StepFrame(state, f) == Emit(m.opcode, m.data, next) && Messages.Valid(m)
    ensures RunFrames(state, [f] + fs) == PrependMessages([m], RunFrames(next, fs))
  {
    hide StepFrame, Messages.Valid;
    assert ([f] + fs)[1..] == fs;
  }

  lemma RunFramesContinue(state: CodecState, f: WireFrame, fs: seq<WireFrame>, next: CodecState)
    requires StepFrame(state, f) == Continue(next)
    ensures RunFrames(state, [f] + fs) == RunFrames(next, fs)
  {
    hide StepFrame;
    assert ([f] + fs)[1..] == fs;
  }

  lemma PrependMessagesTwice(ms: seq<Message>, ns: seq<Message>, run: FrameRun)
    ensures PrependMessages(ms, PrependMessages(ns, run)) == PrependMessages(ms + ns, run)
    ensures PrependMessages([], run) == run
  {
    assert ms + (ns + run.messages) == (ms + ns) + run.messages;
  }

  /** Control frames are answered at once and leave the half-received message alone. */
  lemma {:induction false} ControlsPass(state: CodecState, controls: seq<Outgoing>, fs: seq<WireFrame>)
    requires ControlsFit(controls)
    ensures RunFrames(state, ControlFrames(controls) + fs) ==
            PrependMessages(ControlMessages(controls), RunFrames(state, fs))
    decreases |controls|
  {
    hide StepFrame, FrameOf, ValidUtf8, RunFrames, PrependMessages;
    if controls == [] {
      assert ControlFrames(controls) + fs == fs;
      PrependMessagesTwice([], [], RunFrames(state, fs));
    } else {
      var c := controls[0];
      var f, tail := FrameOf(c.message, c.mask), ControlFrames(controls[1..]) + fs;
      assert c in controls;
      assert ControlFrames(controls) + fs == [f] + tail;
      StepOfMessage(state, c.message, c.mask);
      RunFramesEmit(state, f, tail, c.message, state);
      ControlsPass(state, controls[1..], fs);
      PrependMessagesTwice([c.message], ControlMessages(controls[1..]), RunFrames(state, fs));
    }
  }

  lemma StepOfContinuation(partial: Partial, p: Fragment, fin: bool)
    requires |p.data| < TWO_TO_THE_63
    ensures StepFrame(Some(partial), FragmentFrame(p, 0, fin)) ==
      if fin then Emit(partial.opcode, partial.data + p.data, None)
      else Continue(Some(Partial(partial.opcode, partial.data + p.data)))
  {
    hide TryU64, DataLengthOf;
    OneAcceptedForm(DataLengthOf(|p.data|), |p.data|);
  }

  lemma StepOfFirstFragment(opcode: Opcode, p: Fragment, fin: bool)
    requires |p.data| < TWO_TO_THE_63 && !opcode.IsControl()
    ensures StepFrame(None, FragmentFrame(p, opcode.ToByte(), fin)) ==
      if fin then Emit(opcode, p.data, None) else Continue(Some(Partial(opcode, p.data)))
  {
    hide TryU64, DataLengthOf, OpcodeOf, Opcode.ToByte;
    OneAcceptedForm(DataLengthOf(|p.data|), |p.data|);
    OpcodeOfToByte(opcode);
  }

  lemma {:induction false} ContinuationsReassemble(partial: Partial, fragments: seq<Fragment>)
    requires fragments != [] && FragmentsFit(fragments)
    requires Messages.Valid(Message(partial.opcode, partial.data + Payload(fragments)))
    ensures
      var m := Message(partial.opcode, partial.data + Payload(fragments));
      RunFrames(Some(partial), FragmentFrames(0, fragments)) == FrameRun(Interleaved(fragments) + [m], Between(None))
    decreases |fragments|
  {
    hide StepFrame, FragmentFrame, Messages.Valid, RunFrames, FragmentsFit;
    var p, more := fragments[0], fragments[1..];
    FragmentsFitHead(fragments);
    var f, tail := FragmentFrame(p, 0, |fragments| == 1), FragmentFrames(0, more);
    assert FragmentFrames(0, fragments) == ControlFrames(p.controls) + ([f] + tail);
    ControlsPass(Some(partial), p.controls, [f] + tail);
    StepOfContinuation(partial, p, |fragments| == 1);
    var m := Message(partial.opcode, partial.data + Payload(fragments));
    if more == [] {
      assert p.data == Payload(fragments);
      RunFramesEmit(Some(partial), f, tail, m, None);
      RunNoFrames(None);
      assert Interleaved(fragments) == ControlMessages(p.controls);
    } else {
      var next := Partial(partial.opcode, partial.data + p.data);
      assert next.data + Payload(more) == partial.data + Payload(fragments);
      RunFramesContinue(Some(partial), f, tail, Some(next));
      ContinuationsReassemble(next, more);
      assert ControlMessages(p.controls) + (Interleaved(more) + [m]) == Interleaved(fragments) + [m];
    }
  }

  lemma FramesReassemble(opcode: Opcode, fragments: seq<Fragment>)
    requires !opcode.IsControl() && fragments != [] && FragmentsFit(fragments)
    requires Messages.Valid(Message(opcode, Payload(fragments)))
    ensures RunFrames(None, FragmentFrames(opcode.ToByte(), fragments)) ==
            FrameRun(Interleaved(fragments) + [Message(opcode, Payload(fragments))], Between(None))
  {
    hide StepFrame, FragmentFrame, Messages.Valid, Opcode.ToByte, RunFrames, FragmentsFit;
    var p, more := fragments[0], fragments[1..];
    FragmentsFitHead(fragments);
    var code := opcode.ToByte();
    var f, tail := FragmentFrame(p, code, |fragments| == 1), FragmentFrames(0, more);
    assert FragmentFrames(code, fragments) == ControlFrames(p.controls) + ([f] + tail);
    ControlsPass(None, p.controls, [f] + tail);
    StepOfFirstFragment(opcode, p, |fragments| == 1);
    var m := Message(opcode, Payload(fragments));
    if more == [] {
      assert p.data == Payload(fragments);
      RunFramesEmit(None, f, tail, m, None);
      RunNoFrames(None);
      assert Interleaved(fragments) == ControlMessages(p.controls);
    } else {
      RunFramesContinue(None, f, tail, Some(Partial(opcode, p.data)));
      ContinuationsReassemble(Partial(opcode, p.data), more);
      assert ControlMessages(p.controls) + (Interleaved(more) + [m]) == Interleaved(fragments) + [m];
    }
  }

  /**
    A data message cut anywhere, even inside a character, into any number of fragments, each masked or not, with
    control messages before any of them, is delivered after those control messages as one message with the
    original opcode and payload, and nothing is left half received.
   */
  lemma Reassembly(opcode: Opcode, fragments: seq<Fragment>, rest: seq<byte>)
    requires !opcode.IsControl() && fragments != [] && FragmentsFit(fragments)
    requires Messages.Valid(Message(opcode, Payload(fragments)))
    ensures RunAll(None, WireBytes(FragmentFrames(opcode.ToByte(), fragments)) + rest) ==
            Prepend(Interleaved(fragments) + [Message(opcode, Payload(fragments))], RunAll(None, rest))
  {
    hide *;
    OpcodeFits(opcode);
    FragmentFramesValid(opcode.ToByte(), fragments);
    FramesReassemble(opcode, fragments);
    RunAllOfFrames(None, FragmentFrames(opcode.ToByte(), fragments), rest);
  }

  lemma {:induction false} ControlFramesValid(controls: seq<Outgoing>)
    ensures AllValid(ControlFrames(controls))
  {
    hide Fits;
    if controls != [] {
      ControlFramesValid(controls[1..]);
    }
  }

  lemma FragmentFrameValid(p: Fragment, code: byte, fin: bool)
    requires |p.data| < TWO_TO_THE_63 && FitsOpcode(code)
    ensures FragmentFrame(p, code, fin).Valid()
  {
    assert FitsRsv(0);
  }

  lemma {:induction false} FragmentFramesValid(code: byte, fragments: seq<Fragment>)
    requires FragmentsFit(fragments) && FitsOpcode(code)
    ensures AllValid(FragmentFrames(code, fragments))
    decreases |fragments|
  {
    hide Fits, FragmentFrame;
    if fragments != [] {
      assert fragments[0] in fragments;
      ControlFramesValid(fragments[0].controls);
      FragmentFrameValid(fragments[0], code, |fragments| == 1);
      FragmentFramesValid(0, fragments[1..]);
    }
  }
}
